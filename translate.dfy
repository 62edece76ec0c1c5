/** The `translate` command (`Translate#call`): check the language pair, build the
    lookup URL, fetch the page, and print the title and the quick definitions.
    The fetch and the page parsing are not modelled: `fetch` stands for
    `open(url).read` followed by the extraction of the `#results h1` text and of
    the quick-meanings rows' texts, or for the error it raises. */
module Translate {
  import opened Normalizer
  import opened QuickMeanings
  import opened Request
  import opened Display

  /** The texts the command reads from a fetched page. */
  datatype Page = Page(title: string, rows: seq<string>)

  /** What fetching a URL gives: the page, or the message of the error raised. */
  datatype Fetched = Fetched(page: Page) | FetchFailed(message: string)

  /** What the command writes to standard output and the status it exits with. */
  datatype Exit = Exit(output: string, status: int)

  const PairMessage: string := "Either source or target must be \"cz\""
  const FetchMessage: string := "Failed to get html: "

  /** `Translate#call`. */
  function Call(source: string, target: string, query: string, encode: string -> string,
                fetch: string -> Fetched, columns: nat): (e: Exit)
    ensures e.status == 0 || e.status == 1
    ensures source != "cz" && target != "cz" ==> e == Exit(PairMessage + "\n", 1)
  {
    match LookupUrl(source, target, query, encode)
    case None => Exit(Puts(PairMessage), 1)
    case Some(url) =>
      match fetch(url)
      case FetchFailed(m) => Exit(Puts(FetchMessage + m), 1)
      case Fetched(page) => Exit(Screen(page.title, QuickDefinitions(page.rows), columns), 0)
  }

  /** A pair without "cz" is refused before any URL exists: the outcome is the
      diagnostic and status 1 whatever the fetch would have returned. */
  lemma PairCheckedBeforeFetch(source: string, target: string, query: string, encode: string -> string,
                               fetch1: string -> Fetched, fetch2: string -> Fetched, columns: nat)
    requires source != "cz" && target != "cz"
    ensures Call(source, target, query, encode, fetch1, columns)
            == Call(source, target, query, encode, fetch2, columns)
            == Exit(PairMessage + "\n", 1)
  {
  }

  /** With an accepted pair, the command fetches the lookup URL and nothing else: two
      fetches that agree on that URL give the same outcome, and a failed fetch exits
      with status 1 after printing the error's message. */
  lemma FetchesLookupUrl(source: string, target: string, query: string, encode: string -> string,
                         fetch1: string -> Fetched, fetch2: string -> Fetched, columns: nat)
    requires source == "cz" || target == "cz"
    requires fetch1(LookupUrl(source, target, query, encode).value)
             == fetch2(LookupUrl(source, target, query, encode).value)
    ensures Call(source, target, query, encode, fetch1, columns)
            == Call(source, target, query, encode, fetch2, columns)
    ensures match fetch1(LookupUrl(source, target, query, encode).value)
            case FetchFailed(m) =>
              Call(source, target, query, encode, fetch1, columns) == Exit(Puts(FetchMessage + m), 1)
            case Fetched(_) => Call(source, target, query, encode, fetch1, columns).status == 0
  {
  }

  /** A successful lookup whose title has no line feed prints exactly the lines of
      `Lines` for that title and the page's quick definitions, and exits with 0. */
  lemma SuccessPrintsLines(source: string, target: string, query: string, encode: string -> string,
                           fetch: string -> Fetched, columns: nat)
    requires source == "cz" || target == "cz"
    requires fetch(LookupUrl(source, target, query, encode).value).Fetched?
    requires forall i :: 0 <= i < |fetch(LookupUrl(source, target, query, encode).value).page.title| ==>
               fetch(LookupUrl(source, target, query, encode).value).page.title[i] != '\n'
    ensures var page := fetch(LookupUrl(source, target, query, encode).value).page;
            Call(source, target, query, encode, fetch, columns)
            == Exit(Unlines(Lines(page.title, QuickDefinitions(page.rows), columns)), 0)
  {
    var page := fetch(LookupUrl(source, target, query, encode).value).page;
    var defs := QuickDefinitions(page.rows);
    QuickDefinitionsClean(page.rows);
    forall k, i | 0 <= k < |defs| && 0 <= i < |defs[k]| ensures defs[k][i] != '\n' {
      assert IsClean(defs[k]);
    }
    ScreenIsLines(page.title, defs, columns);
  }
}
