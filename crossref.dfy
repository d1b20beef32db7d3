/** The CrossRef search (`buscar_referencias_crossref`): the query built from
    the opening words of the text, the request URL, and the mapping of the
    JSON response to reference records. The HTTP request and JSON decoding
    are a parameter, `fetch`, from URL to outcome. */
module Crossref {
  import opened Wrappers
  import opened PyStr

  /** How many leading words make up the query. */
  const QueryWords := 10
  const Endpoint := "https://api.crossref.org/works?query="
  const RowsParam := "&rows=10"
  const TitleUnavailable := "Título não disponível"
  const LinkUnavailable := "Link não disponível"

  /** One entry of `message.items`; each field may be absent. */
  datatype Item = Item(title: Option<seq<string>>, abstractText: Option<string>, url: Option<string>)
  datatype Message = Message(items: Option<seq<Item>>)
  datatype Body = Body(message: Option<Message>)

  /** What the request gives back: a `RequestException` (transport failure,
      non-success status) or a decoded JSON body. */
  datatype Fetched = RequestFailed | Fetched(body: Body)

  /** `{"titulo": ..., "resumo": ..., "link": ...}` */
  datatype Reference = Reference(title: string, abstractText: string, link: string)

  /** The `IndexError` raised by `item["title"][0]` on an empty title list;
      it is not a `RequestException`, so nothing catches it. */
  datatype Fault = EmptyTitleList(item: nat)

  /** `texto.split()[:10]` */
  function QueryTokens(text: string): seq<string> {
    var ts := Tokens(text);
    ts[..Min(QueryWords, |ts|)]
  }

  /** `"+".join(texto.split()[:10])` */
  function Query(text: string): string {
    Join(QueryTokens(text), "+")
  }

  /** `f"https://api.crossref.org/works?query={query}&rows=10"` */
  function Url(query: string): string {
    Endpoint + query + RowsParam
  }

  /** The query holds no whitespace. */
  lemma QueryHasNoSpace(text: string)
    ensures NoSpace(Query(text))
  {
    JoinHasNoSpace(QueryTokens(text), "+");
  }

  /** The query is empty exactly when the text is all whitespace. */
  lemma QueryEmptyIff(text: string)
    ensures Query(text) == [] <==> AllSpace(text)
  {
    TokensEmptyIff(text);
    JoinEmptyIff(QueryTokens(text), "+");
  }

  /** Only the first ten words matter: the query of a text equals the query
      of those words written out with blanks between them. */
  lemma QueryDependsOnFirstWords(text: string)
    ensures Query(Join(QueryTokens(text), " ")) == Query(text)
  {
    var qs := QueryTokens(text);
    TokensOfJoin(qs);
    assert qs[..Min(QueryWords, |qs|)] == qs;
  }

  /** Once a text has ten words, whatever follows a whitespace character
      after them does not change the query. */
  lemma QueryIgnoresLaterWords(a: string, c: char, b: string)
    requires IsSpace(c) && |Tokens(a)| >= QueryWords
    ensures Query(a + [c] + b) == Query(a)
  {
    TokensSplitAtSpace(a, c, b);
    assert (Tokens(a) + Tokens(b))[..QueryWords] == Tokens(a)[..QueryWords];
  }

  /** When no word contains '+', splitting the query on '+' gives back the
      words it was built from. */
  lemma QueryDecodes(text: string)
    requires !AllSpace(text)
    requires forall i :: 0 <= i < |QueryTokens(text)| ==> '+' !in QueryTokens(text)[i]
    ensures SplitOn(Query(text), '+') == QueryTokens(text)
  {
    TokensEmptyIff(text);
    SplitOnJoin(QueryTokens(text), '+');
  }

  /** For texts whose words contain no '+', two texts give the same query
      exactly when their first ten words agree. */
  lemma SameQueryIff(a: string, b: string)
    requires forall i :: 0 <= i < |QueryTokens(a)| ==> '+' !in QueryTokens(a)[i]
    requires forall i :: 0 <= i < |QueryTokens(b)| ==> '+' !in QueryTokens(b)[i]
    ensures Query(a) == Query(b) <==> QueryTokens(a) == QueryTokens(b)
  {
    QueryEmptyIff(a);
    QueryEmptyIff(b);
    TokensEmptyIff(a);
    TokensEmptyIff(b);
    if Query(a) == Query(b) && !AllSpace(a) && !AllSpace(b) {
      QueryDecodes(a);
      QueryDecodes(b);
    }
  }

  /** The query can be read back out of the URL, so distinct queries give
      distinct URLs. */
  lemma UrlCarriesQuery(q: string, q': string)
    ensures var u := Url(q);
            |u| == |Endpoint| + |q| + |RowsParam|
            && u[..|Endpoint|] == Endpoint
            && u[|Endpoint|..|u| - |RowsParam|] == q
            && u[|u| - |RowsParam|..] == RowsParam
    ensures Url(q) == Url(q') <==> q == q'
  {
    var u, u' := Url(q), Url(q');
    assert u[|Endpoint|..|u| - |RowsParam|] == q;
    assert u'[|Endpoint|..|u'| - |RowsParam|] == q';
  }

  /** `item.get("title", [...])[0]` would raise. */
  predicate Malformed(item: Item) {
    item.title == Some([])
  }

  /** The record built for one well-formed item. */
  function ToReference(item: Item): Reference
    requires !Malformed(item)
  {
    Reference(
      if item.title.None? then TitleUnavailable else item.title.value[0],
      item.abstractText.GetOr(""),
      item.url.GetOr(LinkUnavailable))
  }

  /** The records for a list of items, or the fault at the first item whose
      title list is empty. */
  function ToReferences(items: seq<Item>): (r: Result<seq<Reference>, Fault>)
    ensures r.Ok? <==> forall i :: 0 <= i < |items| ==> !Malformed(items[i])
    ensures r.Err? ==> var k := r.error.item;
                       k < |items| && Malformed(items[k])
                       && forall i :: 0 <= i < k ==> !Malformed(items[i])
    ensures r.Ok? ==> |r.value| == |items|
    ensures r.Ok? ==> forall i :: 0 <= i < |items| ==>
                        && r.value[i].title == (if items[i].title.None? then TitleUnavailable
                                                else items[i].title.value[0])
                        && r.value[i].abstractText == items[i].abstractText.GetOr("")
                        && r.value[i].link == items[i].url.GetOr(LinkUnavailable)
  {
    if items == [] then Ok([])
    else
      var init := items[..|items| - 1];
      var last := items[|items| - 1];
      assert forall i :: 0 <= i < |init| ==> init[i] == items[i];
      match ToReferences(init)
      case Err(e) => Err(e)
      case Ok(rs) =>
        if Malformed(last) then Err(EmptyTitleList(|items| - 1))
        else Ok(rs + [ToReference(last)])
  }

  /** A fault in a prefix of the items is the fault of the whole list. */
  lemma {:induction false} FaultPersists(items: seq<Item>, n: nat)
    requires n <= |items| && ToReferences(items[..n]).Err?
    ensures ToReferences(items) == ToReferences(items[..n])
    decreases |items| - n
  {
    if n < |items| {
      var p := items[..n + 1];
      assert p[..|p| - 1] == items[..n];
      FaultPersists(items, n + 1);
    } else {
      assert items[..n] == items;
    }
  }

  /** The item loop: one record appended per item, in order. */
  method MapItems(items: seq<Item>) returns (r: Result<seq<Reference>, Fault>)
    ensures r == ToReferences(items)
  {
    var referencias: seq<Reference> := [];
    var i := 0;
    while i < |items|
      invariant 0 <= i <= |items|
      invariant ToReferences(items[..i]) == Ok(referencias)
    {
      var item := items[i];
      assert items[..i + 1][..i] == items[..i];
      if Malformed(item) {
        FaultPersists(items, i + 1);
        return Err(EmptyTitleList(i));
      }
      referencias := referencias + [ToReference(item)];
      i := i + 1;
    }
    assert items[..i] == items;
    r := Ok(referencias);
  }

  /** `data.get("message", {}).get("items", [])` */
  function ItemsOf(body: Body): seq<Item> {
    match body.message
    case None => []
    case Some(m) => m.items.GetOr([])
  }

  /** The outcome of the search for a given request outcome. */
  function ReferencesFrom(f: Fetched): Result<seq<Reference>, Fault> {
    match f
    case RequestFailed => Ok([])
    case Fetched(body) => ToReferences(ItemsOf(body))
  }

  /** A failed request, or a body without `message` or `items`, yields no
      references and no fault; otherwise one record per item, in order. */
  lemma ReferencesFromCases(f: Fetched)
    ensures f.RequestFailed? ==> ReferencesFrom(f) == Ok([])
    ensures f.Fetched? && (f.body.message.None? || f.body.message.value.items.None?)
            ==> ReferencesFrom(f) == Ok([])
    ensures f.Fetched? && ReferencesFrom(f).Ok? ==> |ReferencesFrom(f).value| == |ItemsOf(f.body)|
  {
  }

  /** `buscar_referencias_crossref(texto)`, with the request as `fetch`. */
  method SearchReferences(text: string, fetch: string -> Fetched)
    returns (r: Result<seq<Reference>, Fault>)
    ensures r == ReferencesFrom(fetch(Url(Query(text))))
    ensures fetch(Url(Query(text))).RequestFailed? ==> r == Ok([])
  {
    var query := Join(QueryTokens(text), "+");
    var url := Endpoint + query + RowsParam;
    var response := fetch(url);
    if response.RequestFailed? {
      return Ok([]);
    }
    r := MapItems(ItemsOf(response.body));
  }
}
