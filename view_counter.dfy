/** The view counter's page-load handler (js/scripts.js, lines 233-310).

    On every page load the script sends one or two requests to the counter
    service: a "hit" (increment and return) or a "get" (read only). A
    `sessionStorage` entry `hasVisited` records that this browser session has
    already been counted. Each request's result is abstracted to a
    `Response`: the request or its JSON parsing failed (`Fail`), the JSON
    carried a `value` (`Value(n)`), or it carried none (`NoValue`). The
    handler is `ViewCounterClient.OnContentLoaded`, which takes the responses
    as parameters; the transition function `PageLoad` specifies it, and the
    lemmas state the protocol. */
module ViewCounter {
  import opened Wrappers
  import opened NumberFormat

  datatype Response = Fail | Value(n: nat) | NoValue

  datatype Endpoint = Hit | Get

  const Unknown := "?"
  const VisitedFlag := "true"

  /** The session marker, the counter element's text, and the requests sent
      so far (in order). */
  datatype Counter = Counter(marker: Option<string>, display: string, sent: seq<Endpoint>)

  /** One page load. `hasElement` says whether the page has a `#viewCount`
      element; `first` is the result of the first request, `second` that of
      the fallback request (consulted only if one is sent). */
  function PageLoad(c: Counter, hasElement: bool, first: Response, second: Response): Counter {
    if !hasElement then c
    else if !Truthy(c.marker) then
      var afterHit := c.(sent := c.sent + [Hit]);
      match first
      case Value(n) => afterHit.(display := FormatNumber(n), marker := Some(VisitedFlag))
      case NoValue => afterHit
      case Fail =>
        var afterGet := afterHit.(sent := afterHit.sent + [Get]);
        match second
        case Value(m) => afterGet.(display := FormatNumber(m))
        case NoValue => afterGet
        case Fail => afterGet.(display := Unknown)
    else
      var afterGet := c.(sent := c.sent + [Get]);
      match first
      case Value(n) => afterGet.(display := FormatNumber(n))
      case Fail => afterGet.(display := Unknown)
      case NoValue =>
        // the inner hit has no catch: its failure leaves the display alone
        var afterHit := afterGet.(sent := afterGet.sent + [Hit]);
        match second
        case Value(m) => afterHit.(display := FormatNumber(m))
        case _ => afterHit
  }

  // ---------------------------------------------------------------------
  // One page load

  /** Without a `#viewCount` element the handler returns at once. */
  lemma NoElementNoRequest(c: Counter, first: Response, second: Response)
    ensures PageLoad(c, false, first, second) == c
  {
  }

  /** First visit of the session, and the hit answers with a value: it is
      shown and the marker is set; nothing else is sent. */
  lemma FirstVisitCounted(c: Counter, n: nat, second: Response)
    requires !Truthy(c.marker)
    ensures var c' := PageLoad(c, true, Value(n), second);
      c'.display == FormatNumber(n) && c'.marker == Some(VisitedFlag) && c'.sent == c.sent + [Hit]
  {
  }

  /** First visit, any other outcome: the marker is not set. A failed hit
      leads to exactly one get, whose value is shown, or `?` if it fails too;
      a hit without a value does nothing more. */
  lemma FirstVisitNotCounted(c: Counter, first: Response, second: Response)
    requires !Truthy(c.marker) && !first.Value?
    ensures var c' := PageLoad(c, true, first, second);
      && c'.marker == c.marker
      && (first == NoValue ==> c' == c.(sent := c.sent + [Hit]))
      && (first == Fail ==> c'.sent == c.sent + [Hit, Get])
      && (first == Fail && second.Value? ==> c'.display == FormatNumber(second.n))
      && (first == Fail && second == NoValue ==> c'.display == c.display)
      && (first == Fail && second == Fail ==> c'.display == Unknown)
  {
  }

  /** Later visits in the session: the marker never changes; a hit is sent
      exactly when the get answers without a value; a failed get shows `?`;
      a failed inner hit leaves the display as it was. */
  lemma ReturningVisit(c: Counter, first: Response, second: Response)
    requires Truthy(c.marker)
    ensures var c' := PageLoad(c, true, first, second);
      && c'.marker == c.marker
      && (Hit in c'.sent[|c.sent|..] <==> first == NoValue)
      && c'.sent == c.sent + (if first == NoValue then [Get, Hit] else [Get])
      && (first.Value? ==> c'.display == FormatNumber(first.n))
      && (first == Fail ==> c'.display == Unknown)
      && (first == NoValue && second.Value? ==> c'.display == FormatNumber(second.n))
      && (first == NoValue && !second.Value? ==> c'.display == c.display)
  {
    var c' := PageLoad(c, true, first, second);
    assert c'.sent[|c.sent|..] == if first == NoValue then [Get, Hit] else [Get];
  }

  /** The requests one load sends, after those sent before. */
  function Issued(c: Counter, hasElement: bool, first: Response, second: Response): seq<Endpoint> {
    if !hasElement then []
    else if !Truthy(c.marker) then (if first == Fail then [Hit, Get] else [Hit])
    else (if first == NoValue then [Get, Hit] else [Get])
  }

  /** Each load appends its requests to the log: at most two, at most one hit. */
  lemma PageLoadRequests(c: Counter, hasElement: bool, first: Response, second: Response)
    ensures PageLoad(c, hasElement, first, second).sent == c.sent + Issued(c, hasElement, first, second)
    ensures |Issued(c, hasElement, first, second)| <= 2
    ensures multiset(Issued(c, hasElement, first, second))[Hit] <= 1
  {
  }

  /** The marker is never cleared, and is set only after a hit that
      answered with a value. */
  lemma PageLoadMarker(c: Counter, hasElement: bool, first: Response, second: Response)
    ensures var c' := PageLoad(c, hasElement, first, second);
      && (Truthy(c.marker) ==> c'.marker == c.marker)
      && (c'.marker != c.marker ==>
            hasElement && first.Value? && c'.marker == Some(VisitedFlag) && c'.sent == c.sent + [Hit])
  {
  }

  /** The display is unchanged, `?`, or a formatted count from one of the
      responses. */
  lemma PageLoadDisplay(c: Counter, hasElement: bool, first: Response, second: Response)
    ensures var c' := PageLoad(c, hasElement, first, second);
      || c'.display == c.display || c'.display == Unknown
      || (first.Value? && c'.display == FormatNumber(first.n))
      || (second.Value? && c'.display == FormatNumber(second.n))
  {
  }

  /** When every request fails the display shows `?` and the session stays
      uncounted, so a later load will try to count it again. */
  lemma AllFailuresShowUnknown(c: Counter)
    ensures PageLoad(c, true, Fail, Fail).display == Unknown
    ensures PageLoad(c, true, Fail, Fail).marker == c.marker
  {
  }

  // ---------------------------------------------------------------------
  // A browser session: successive page loads sharing the session marker

  datatype Load = Load(hasElement: bool, first: Response, second: Response)

  function RunSession(c: Counter, loads: seq<Load>): Counter
    decreases |loads|
  {
    if loads == [] then c
    else RunSession(PageLoad(c, loads[0].hasElement, loads[0].first, loads[0].second), loads[1..])
  }

  /** How many loads of the session set the marker. */
  function MarkerSets(c: Counter, loads: seq<Load>): nat
    decreases |loads|
  {
    if loads == [] then 0
    else
      var c' := PageLoad(c, loads[0].hasElement, loads[0].first, loads[0].second);
      (if !Truthy(c.marker) && Truthy(c'.marker) then 1 else 0) + MarkerSets(c', loads[1..])
  }

  /** Once set, the marker stays set for the rest of the session. */
  lemma {:induction false} MarkerStaysSet(c: Counter, loads: seq<Load>)
    requires Truthy(c.marker)
    ensures RunSession(c, loads).marker == c.marker
    ensures MarkerSets(c, loads) == 0
    decreases |loads|
  {
    if loads != [] {
      var c' := PageLoad(c, loads[0].hasElement, loads[0].first, loads[0].second);
      ReturningVisit(c, loads[0].first, loads[0].second);
      MarkerStaysSet(c', loads[1..]);
    }
  }

  /** A session is counted by a successful hit at most once. */
  lemma {:induction false} CountedAtMostOnce(c: Counter, loads: seq<Load>)
    ensures MarkerSets(c, loads) <= 1
    decreases |loads|
  {
    if loads != [] {
      var c' := PageLoad(c, loads[0].hasElement, loads[0].first, loads[0].second);
      if Truthy(c'.marker) {
        MarkerStaysSet(c', loads[1..]);
      } else {
        CountedAtMostOnce(c', loads[1..]);
      }
    }
  }

  /** The marker guards only the first branch: a returning load whose get
      has no value sends a second hit in the same session. */
  lemma SessionCanHitTwice()
    ensures RunSession(Counter(None, "", []), [Load(true, Value(5), Fail), Load(true, NoValue, Value(6))]).sent
         == [Hit, Get, Hit]
  {
  }

  // ---------------------------------------------------------------------
  // The handler, updating the page and session storage in place

  class ViewCounterClient {
    var sessionMarker: Option<string>
    var displayText: string
    var sent: seq<Endpoint>

    function Snapshot(): Counter
      reads this
    {
      Counter(sessionMarker, displayText, sent)
    }

    constructor (sessionMarker: Option<string>, displayText: string)
      ensures Snapshot() == Counter(sessionMarker, displayText, [])
    {
      this.sessionMarker, this.displayText, this.sent := sessionMarker, displayText, [];
    }

    /** `updateViewCount`, reduced to setting the text. */
    method UpdateViewCount(count: nat)
      modifies this
      ensures displayText == FormatNumber(count)
      ensures sessionMarker == old(sessionMarker) && sent == old(sent)
    {
      displayText := FormatNumber(count);
    }

    method Request(endpoint: Endpoint)
      modifies this
      ensures sent == old(sent) + [endpoint]
      ensures sessionMarker == old(sessionMarker) && displayText == old(displayText)
    {
      sent := sent + [endpoint];
    }

    method OnContentLoaded(hasElement: bool, first: Response, second: Response)
      modifies this
      ensures Snapshot() == PageLoad(old(Snapshot()), hasElement, first, second)
    {
      if !hasElement {
        return;
      }
      var hasVisited := sessionMarker;
      if !(hasVisited.Some? && hasVisited.value != "") {
        Request(Hit);
        if first.Value? {
          UpdateViewCount(first.n);
          sessionMarker := Some(VisitedFlag);
        } else if first == Fail {
          Request(Get);
          if second.Value? {
            UpdateViewCount(second.n);
          } else if second == Fail {
            displayText := Unknown;
          }
        }
      } else {
        Request(Get);
        if first.Value? {
          UpdateViewCount(first.n);
        } else if first == NoValue {
          Request(Hit);
          if second.Value? {
            UpdateViewCount(second.n);
          }
        } else {
          displayText := Unknown;
        }
      }
    }
  }
}
