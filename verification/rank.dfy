/**
 * Rank extraction for one keyword (app.py, lines 102-124): the target website is
 * reduced to a bare domain, the organic results are scanned in the order the search
 * API returned them, and the first result whose link contains that domain gives the
 * rank. A non-200 status and a raised exception become outcomes of their own.
 */
module Rank {
  import opened Wrappers
  import opened Strings

  /** One organic search result; either key may be missing from the API's JSON. */
  datatype Item = Item(position: Option<int>, link: Option<string>)

  /**
   * What the HTTP call produced for one keyword: a status code with the `organic`
   * list of the decoded body (None when the key is absent), or an exception message.
   */
  datatype Response =
    | Reply(status: int, organic: Option<seq<Item>>)
    | Raised(message: string)

  /** The rank outcome of one keyword. */
  datatype Outcome =
    | Found(position: int, link: string)
    | NotFound
    | ApiError(code: int)
    | Error(message: string)

  const StatusOk: int := 200
  const HttpsScheme: string := "https://"
  const HttpScheme: string := "http://"
  const WwwLabel: string := "www."

  /** The messages `str(e)` gives for a `KeyError` on the two item keys. */
  const MissingLinkMessage: string := "'link'"
  const MissingPositionMessage: string := "'position'"

  /**
   * The three replacements, in order: every `https://`, then every `http://`, then
   * every `www.` is removed. No character is introduced.
   */
  function RemoveSchemesAndWww(s: string): (r: string)
    ensures forall c :: c in r ==> c in s
  {
    var noHttps := ReplaceAll(s, HttpsScheme, "");
    var noHttp := ReplaceAll(noHttps, HttpScheme, "");
    ReplaceAllChars(s, HttpsScheme, "");
    ReplaceAllChars(noHttps, HttpScheme, "");
    ReplaceAllChars(noHttp, WwwLabel, "");
    ReplaceAll(noHttp, WwwLabel, "")
  }

  /**
   * The string looked for in each result link: the URL lower-cased, with every
   * occurrence of the two schemes and of `www.` removed, cut at the first `/`.
   * It is lower-case and holds no `/`.
   */
  function CanonicalTarget(websiteUrl: string): (t: string)
    ensures NoUpper(t)
    ensures '/' !in t
  {
    var lowered := Lower(websiteUrl);
    var bare := RemoveSchemesAndWww(lowered);
    SplitPiecesLackSeparator(bare, '/');
    var t := Split(bare, "/")[0];
    assert forall i :: 0 <= i < |t| ==> t[i] in bare;
    t
  }

  /** The text before the first `/` of a string without one is the whole string. */
  lemma FirstPieceWithoutSlash(s: string)
    requires '/' !in s
    ensures Split(s, "/")[0] == s
  {
    SplitWithoutSeparator(s, '/');
  }

  /**
   * A string that is already lower-case and holds neither scheme, nor `www.`, nor a
   * `/` is its own canonical target.
   */
  lemma CanonicalFixpoint(s: string)
    requires NoUpper(s)
    requires !Contains(s, HttpsScheme) && !Contains(s, HttpScheme) && !Contains(s, WwwLabel)
    requires '/' !in s
    ensures CanonicalTarget(s) == s
  {
    assert RemoveSchemesAndWww(s) == s;
    FirstPieceWithoutSlash(s);
  }

  /**
   * Canonicalising twice is not the same as canonicalising once: removing `www.`
   * can join the text around it into a new `www.`.
   */
  lemma CanonicalNotIdempotent()
    ensures CanonicalTarget("wwww.ww.") == "www."
    ensures CanonicalTarget(CanonicalTarget("wwww.ww.")) == ""
  {
    WwwRejoinsCanonical();
    WwwAloneCanonical();
  }

  lemma WwwRejoins()
    ensures RemoveSchemesAndWww("wwww.ww.") == "www."
  {
    var s := "wwww.ww.";
    MissingCharNotContained(s, HttpsScheme, ':');
    MissingCharNotContained(s, HttpScheme, ':');
    WwwAfterFirstLetter();
  }

  lemma WwwAfterFirstLetter()
    ensures ReplaceAll("wwww.ww.", WwwLabel, "") == "www."
  {
    var s := "wwww.ww.";
    assert !IsPrefix(WwwLabel, s) by { assert s[..4][3] != WwwLabel[3]; }
    assert s[1..] == WwwLabel + "ww.";
    LongerNotContained("ww.", WwwLabel);
    RemoveLeadingOccurrence(WwwLabel, "ww.");
    assert ReplaceAll(s, WwwLabel, "") == [s[0]] + ReplaceAll(s[1..], WwwLabel, "");
  }

  lemma WwwRejoinsCanonical()
    ensures CanonicalTarget("wwww.ww.") == "www."
  {
    assert Lower("wwww.ww.") == "wwww.ww.";
    WwwRejoins();
    FirstPieceWithoutSlash("www.");
  }

  lemma WwwAlone()
    ensures RemoveSchemesAndWww("www.") == ""
  {
    MissingCharNotContained("www.", HttpsScheme, ':');
    MissingCharNotContained("www.", HttpScheme, ':');
    RemoveLeadingOccurrence(WwwLabel, "");
    assert WwwLabel + "" == "www.";
  }

  lemma WwwAloneCanonical()
    ensures CanonicalTarget("www.") == ""
  {
    assert Lower("www.") == "www.";
    WwwAlone();
    FirstPieceWithoutSlash("");
  }

  lemma HttpsAloneCanonical()
    ensures CanonicalTarget("https://") == ""
  {
    assert Lower("https://") == "https://";
    assert RemoveSchemesAndWww("https://") == "" by {
      RemoveLeadingOccurrence(HttpsScheme, "");
      assert HttpsScheme + "" == "https://";
    }
    FirstPieceWithoutSlash("");
  }

  lemma HttpAloneCanonical()
    ensures CanonicalTarget("http://") == ""
  {
    assert Lower("http://") == "http://";
    assert RemoveSchemesAndWww("http://") == "" by {
      LongerNotContained("http://", HttpsScheme);
      RemoveLeadingOccurrence(HttpScheme, "");
      assert HttpScheme + "" == "http://";
    }
    FirstPieceWithoutSlash("");
  }

  lemma LowerOfFullUrl(domain: string, path: string)
    requires NoUpper(domain) && NoUpper(path)
    ensures var url := HttpsScheme + (WwwLabel + (domain + "/" + path));
      Lower(url) == url
  {
    NoUpperConcat(domain, "/");
    NoUpperConcat(domain + "/", path);
    NoUpperConcat(WwwLabel, domain + "/" + path);
    NoUpperConcat(HttpsScheme, WwwLabel + (domain + "/" + path));
  }

  lemma RemoveOfFullUrl(domain: string, path: string)
    requires ':' !in domain && ':' !in path
    requires !Contains(domain + "/" + path, WwwLabel)
    ensures RemoveSchemesAndWww(HttpsScheme + (WwwLabel + (domain + "/" + path))) == domain + "/" + path
  {
    var tail := domain + "/" + path;
    var rest := WwwLabel + tail;
    assert ':' !in rest;
    MissingCharNotContained(rest, HttpsScheme, ':');
    RemoveLeadingOccurrence(HttpsScheme, rest);
    MissingCharNotContained(rest, HttpScheme, ':');
    RemoveLeadingOccurrence(WwwLabel, tail);
  }

  lemma FirstPieceOfPath(domain: string, path: string)
    requires '/' !in domain
    ensures Split(domain + "/" + path, "/")[0] == domain
  {
    assert domain + "/" + path == domain + ['/'] + path;
    SplitAfterPiece(domain, '/', path);
  }

  /**
   * A URL `https://www.<domain>/<path>` reduces to `<domain>` when both parts are
   * lower-case, hold no `:`, the domain holds no `/`, and no `www.` occurs after the
   * leading one.
   */
  lemma CanonicalOfFullUrl(domain: string, path: string)
    requires NoUpper(domain) && NoUpper(path)
    requires ':' !in domain && ':' !in path && '/' !in domain
    requires !Contains(domain + "/" + path, WwwLabel)
    ensures CanonicalTarget(HttpsScheme + WwwLabel + domain + "/" + path) == domain
  {
    assert HttpsScheme + WwwLabel + domain + "/" + path == HttpsScheme + (WwwLabel + (domain + "/" + path));
    LowerOfFullUrl(domain, path);
    RemoveOfFullUrl(domain, path);
    FirstPieceOfPath(domain, path);
  }

  /** What looking at one result does to the scan: pass over it, or stop with an outcome. */
  datatype Step = Skip | Stop(outcome: Outcome)

  /** The result's link, lower-cased, contains the target. */
  predicate Matches(target: string, item: Item) {
    item.link.Some? && Contains(Lower(item.link.value), target)
  }

  /**
   * One iteration of the loop over the organic results: a result without a link raises
   * a `KeyError`; a matching result stops the loop with its position and link (or
   * raises when it has no position); any other result is passed over.
   */
  function Inspect(target: string, item: Item): (st: Step)
    ensures st.Skip? <==> item.link.Some? && !Matches(target, item)
    ensures st.Stop? ==> st.outcome.Found? || st.outcome.Error?
    ensures st.Stop? && st.outcome.Found? <==> Matches(target, item) && item.position.Some?
    ensures Matches(target, item) && item.position.Some? ==>
              st == Stop(Found(item.position.value, item.link.value))
    ensures item.link.None? ==> st == Stop(Error(MissingLinkMessage))
    ensures Matches(target, item) && item.position.None? ==> st == Stop(Error(MissingPositionMessage))
  {
    match item.link
    case None => Stop(Error(MissingLinkMessage))
    case Some(link) =>
      if Contains(Lower(link), target) then
        match item.position
        case None => Stop(Error(MissingPositionMessage))
        case Some(p) => Stop(Found(p, link))
      else Skip
  }

  /**
   * The scan of the organic results with its `break`: the outcome is that of the first
   * result that stops the scan, and NotFound exactly when every result is passed over.
   * A Found outcome is the position and link of a result in the list whose link
   * contains the target.
   */
  function ScanOrganic(target: string, items: seq<Item>): (o: Outcome)
    ensures o.Found? || o.NotFound? || o.Error?
    ensures o.NotFound? <==> forall k :: 0 <= k < |items| ==> Inspect(target, items[k]).Skip?
    ensures forall k ::
              && 0 <= k < |items|
              && Inspect(target, items[k]).Stop?
              && (forall j :: 0 <= j < k ==> Inspect(target, items[j]).Skip?)
              ==> o == Inspect(target, items[k]).outcome
    ensures o.Found? ==> exists k :: 0 <= k < |items| && items[k] == Item(Some(o.position), Some(o.link))
    ensures o.Found? ==> Contains(Lower(o.link), target)
    decreases |items|
  {
    if |items| == 0 then NotFound
    else
      match Inspect(target, items[0])
      case Stop(o) => o
      case Skip =>
        var o := ScanOrganic(target, items[1..]);
        assert forall k :: 1 <= k < |items| ==> items[k] == items[1..][k - 1];
        o
  }

  /**
   * The scan stops for good: results after the one that stopped it are never looked
   * at, and a prefix that passes everything over leaves the outcome to what follows.
   */
  lemma {:induction false} ScanBreaks(target: string, front: seq<Item>, back: seq<Item>)
    ensures ScanOrganic(target, front + back) ==
            if ScanOrganic(target, front).NotFound? then ScanOrganic(target, back)
            else ScanOrganic(target, front)
    decreases |front|
  {
    if |front| > 0 {
      assert (front + back)[0] == front[0];
      assert (front + back)[1..] == front[1..] + back;
      ScanBreaks(target, front[1..], back);
    } else {
      assert front + back == back;
    }
  }

  /**
   * The `for item in organic` loop as written, with its `break`: the results are
   * looked at in order until one stops the loop. It computes the same outcome as the
   * recursive scan.
   */
  method ScanLoop(target: string, items: seq<Item>) returns (o: Outcome)
    ensures o == ScanOrganic(target, items)
  {
    o := NotFound;
    var i := 0;
    while i < |items|
      invariant 0 <= i <= |items|
      invariant ScanOrganic(target, items) == ScanOrganic(target, items[i..])
    {
      assert items[i..] == [items[i]] + items[i + 1..];
      match Inspect(target, items[i])
      case Stop(stopped) =>
        o := stopped;
        return;
      case Skip =>
        i := i + 1;
    }
    assert items[i..] == [];
  }

  /** All results carry both keys, as the search API sends them. */
  predicate WellFormed(items: seq<Item>) {
    forall k :: 0 <= k < |items| ==> items[k].position.Some? && items[k].link.Some?
  }

  /**
   * For well-formed results the rank is the position and link of the first result in
   * list order whose lower-cased link contains the target, and NotFound exactly when
   * there is none.
   */
  lemma FirstMatchWins(target: string, items: seq<Item>)
    requires WellFormed(items)
    ensures ScanOrganic(target, items).NotFound? <==> forall k :: 0 <= k < |items| ==> !Matches(target, items[k])
    ensures forall k ::
              && 0 <= k < |items|
              && Matches(target, items[k])
              && (forall j :: 0 <= j < k ==> !Matches(target, items[j]))
              ==> ScanOrganic(target, items) == Found(items[k].position.value, items[k].link.value)
  {
  }

  /**
   * The outcome of one keyword: an exception gives Error with its message, a status
   * other than 200 gives ApiError with that status, a 200 reply without `organic`
   * gives NotFound, and otherwise the organic results are scanned for the target.
   */
  function RankOutcome(websiteUrl: string, response: Response): (o: Outcome)
    ensures response.Raised? ==> o == Error(response.message)
    ensures o.ApiError? <==> response.Reply? && response.status != StatusOk
    ensures o.ApiError? ==> o.code == response.status
    ensures response == Reply(StatusOk, None) ==> o == NotFound
    ensures o.Found? ==>
              && response.Reply? && response.status == StatusOk && response.organic.Some?
              && Contains(Lower(o.link), CanonicalTarget(websiteUrl))
              && exists k :: 0 <= k < |response.organic.value| &&
                   response.organic.value[k] == Item(Some(o.position), Some(o.link))
    ensures response.Reply? && response.status == StatusOk && response.organic.Some? ==>
              var items := response.organic.value;
              var target := CanonicalTarget(websiteUrl);
              && (o.NotFound? <==> forall k :: 0 <= k < |items| ==> Inspect(target, items[k]).Skip?)
              && forall k ::
                   && 0 <= k < |items|
                   && Inspect(target, items[k]).Stop?
                   && (forall j :: 0 <= j < k ==> Inspect(target, items[j]).Skip?)
                   ==> o == Inspect(target, items[k]).outcome
  {
    match response
    case Raised(message) => Error(message)
    case Reply(status, organic) =>
      if status != StatusOk then ApiError(status)
      else
        match organic
        case None => NotFound
        case Some(items) => ScanOrganic(CanonicalTarget(websiteUrl), items)
  }

  /**
   * For a 200 reply whose results carry both keys, the rank is that of the first result
   * whose lower-cased link contains the website's canonical target, and NotFound
   * exactly when no link contains it.
   */
  lemma OkReplyFirstMatch(url: string, items: seq<Item>)
    requires WellFormed(items)
    ensures var t := CanonicalTarget(url);
            var o := RankOutcome(url, Reply(StatusOk, Some(items)));
            && (o.NotFound? <==> forall k :: 0 <= k < |items| ==> !Contains(Lower(items[k].link.value), t))
            && forall k ::
                 && 0 <= k < |items|
                 && Contains(Lower(items[k].link.value), t)
                 && (forall j :: 0 <= j < k ==> !Contains(Lower(items[j].link.value), t))
                 ==> o == Found(items[k].position.value, items[k].link.value)
  {
    FirstMatchWins(CanonicalTarget(url), items);
  }

  /**
   * A URL whose target is empty, such as one made only of a scheme or of `www.`,
   * matches every link, so the first result wins.
   */
  lemma EmptyTargetTakesFirstResult(url: string, items: seq<Item>)
    requires CanonicalTarget(url) == []
    requires |items| > 0 && items[0].position.Some? && items[0].link.Some?
    ensures RankOutcome(url, Reply(StatusOk, Some(items))) ==
            Found(items[0].position.value, items[0].link.value)
  {
    EmptyIsContained(Lower(items[0].link.value));
  }

  /** The three URLs made of nothing but a scheme or `www.` all have the empty target. */
  lemma BareSchemesHaveEmptyTarget()
    ensures CanonicalTarget("https://") == []
    ensures CanonicalTarget("http://") == []
    ensures CanonicalTarget("www.") == []
  {
    HttpsAloneCanonical();
    HttpAloneCanonical();
    WwwAloneCanonical();
  }
}
