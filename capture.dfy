/**
 * The capture loop of `process_page_and_store` (parbake.py:54-112): the
 * commands sent to the page's DevTools channel and the state built from the
 * messages that come back, until the result of the `Runtime.evaluate`
 * command arrives.
 */
module Capture {
  import opened Wrappers

  /** Correlation ids of the commands the session sends. */
  const PAGE_ENABLE: int := 1     // Page.enable, line 61
  const NETWORK_ENABLE: int := 2  // Network.enable, line 63
  const NAVIGATE: int := 3        // Page.navigate to the URL, line 64
  const RUNTIME_ENABLE: int := 4  // Runtime.enable, line 97
  const EVALUATE: int := 5        // Runtime.evaluate of the document's outer HTML, line 98
  const NAVIGATE_BLANK: int := 6  // Page.navigate to about:blank, line 107

  /** The commands sent before the first message is read (lines 61-64). */
  const OPENING: seq<int> := [PAGE_ENABLE, NETWORK_ENABLE, NAVIGATE]

  /** An inbound DevTools message, as far as the loop looks into it. */
  datatype Packet =
      /** any message with an "error" key, whatever else it carries (possibly an id) */
    | Error(carriedId: Option<int>)
      /** Network.responseReceived: the response's protocol, url, content-type header and the two times */
    | ResponseReceived(protocol: string, url: string, contentType: Option<string>, timestamp: int, requestTime: int)
    | LoadEventFired
      /** any other "method" message */
    | OtherMethod(name: string)
      /** a message with "result": its id, whether the result dict is non-empty, and result.result.value */
    | Result(id: int, nonEmpty: bool, value: string)
      /** an empty message, or one with none of "error", "method" and "result" */
    | EmptyMessage

  /** One `[url, timestamp - requestTime]` entry of `metadata["timings"]`. */
  datatype Timing = Timing(url: string, elapsed: int)

  /** The "Content-Type" entry of the metadata dict: no key, or a key holding a header or null. */
  datatype ContentTypeSlot = Absent | Stored(header: Option<string>)

  datatype Metadata = Metadata(contentType: ContentTypeSlot, timings: seq<Timing>)

  /** The loop's variables when it stops, the ids sent so far and the number of messages read. */
  datatype Session = Session(metadata: Metadata, page: Option<string>, discarded: set<string>,
                             done: bool, sent: seq<int>, consumed: nat)

  /** The keys of the metadata dict. */
  function Keys(m: Metadata): set<string> {
    {"timings"} + (if m.contentType.Stored? then {"Content-Type"} else {})
  }

  /** The guard of line 88 tests a key that line 90 never writes, so it never blocks. */
  lemma GuardNeverBlocks(m: Metadata)
    ensures "content-type" !in Keys(m)
  {
    assert "content-type"[0] != "Content-Type"[0];
    assert "content-type"[0] != "timings"[0];
  }

  /** The message that ends the loop: a result for the evaluate command. */
  predicate IsTerminal(p: Packet) {
    p.Result? && p.id == EVALUATE
  }

  /** A response whose timing is recorded; "data" responses are not network loads. */
  predicate Qualifies(p: Packet) {
    p.ResponseReceived? && p.protocol != "data"
  }

  /** Messages that leave every variable of the loop as it was. */
  predicate Inert(p: Packet) {
    || p.Error?
    || p.EmptyMessage?
    || (p.ResponseReceived? && p.protocol == "data")
    || (p.Result? && p.id != EVALUATE && !p.nonEmpty)
  }

  function TimingOf(p: Packet): Timing
    requires p.ResponseReceived?
  {
    Timing(p.url, p.timestamp - p.requestTime)
  }

  function Last<T>(s: seq<T>): T
    requires s != []
  {
    s[|s| - 1]
  }

  function AllButLast<T>(s: seq<T>): seq<T>
    requires s != []
  {
    s[..|s| - 1]
  }

  /** The timings recorded for the messages `ps`. */
  function Timings(ps: seq<Packet>): seq<Timing> {
    if ps == [] then []
    else Timings(AllButLast(ps)) + (if Qualifies(Last(ps)) then [TimingOf(Last(ps))] else [])
  }

  /** The content-type entry after the messages `ps`: set anew by every qualifying response. */
  function ContentType(ps: seq<Packet>): ContentTypeSlot {
    if ps == [] then Absent
    else if Qualifies(Last(ps)) then Stored(Last(ps).contentType)
    else ContentType(AllButLast(ps))
  }

  /** The number of load events among `ps`. */
  function Loads(ps: seq<Packet>): nat {
    if ps == [] then 0 else Loads(AllButLast(ps)) + (if Last(ps).LoadEventFired? then 1 else 0)
  }

  /** `str(n)` of a Python int. */
  function DecimalString(n: int): (r: string)
    ensures r != [] && (r[0] == '-' <==> n < 0)
  {
    if n < 0 then "-" + NatString(-n) else NatString(n)
  }

  /** The digits of `n`, most significant first. */
  function NatString(n: nat): (r: string)
    ensures r != [] && r[0] != '-'
  {
    if n < 10 then [('0' as int + n) as char] else NatString(n / 10) + [('0' as int + n % 10) as char]
  }

  /** The digits of `n` are decimal digits, and only zero itself starts with '0'. */
  lemma {:induction false} NatStringDigits(n: nat)
    ensures forall k :: 0 <= k < |NatString(n)| ==> '0' <= NatString(n)[k] <= '9'
    ensures (NatString(n)[0] == '0') == (n == 0)
  {
    if n >= 10 {
      NatStringDigits(n / 10);
    }
  }

  /**
   * `str(n)`: a '-' exactly for negative `n`, then the decimal digits of
   * `|n|` without leading zeros.
   */
  lemma DecimalStringDigits(n: int)
    ensures var r, lead := DecimalString(n), if n < 0 then 1 else 0;
      && |r| > lead
      && (forall k :: lead <= k < |r| ==> '0' <= r[k] <= '9')
      && (r[lead] == '0' ==> n == 0 && r == "0")
  {
    var m := if n < 0 then -n else n;
    NatStringDigits(m);
    if m < 10 {
      assert NatString(m) == [('0' as int + m) as char];
    }
  }

  /** The number a string of decimal digits stands for, most significant first. */
  function DigitsValue(s: string): int {
    if s == [] then 0 else DigitsValue(s[..|s| - 1]) * 10 + (s[|s| - 1] as int - '0' as int)
  }

  /** Reading the digits of `n` back gives `n`. */
  lemma {:induction false} NatStringValue(n: nat)
    ensures DigitsValue(NatString(n)) == n
  {
    var s := NatString(n);
    if n >= 10 {
      NatStringValue(n / 10);
      assert s[..|s| - 1] == NatString(n / 10);
    } else {
      assert s[..|s| - 1] == [];
    }
  }

  /** `str` is injective on ints: equal strings exactly for equal numbers. */
  lemma DecimalStringInjective(m: int, n: int)
    ensures DecimalString(m) == DecimalString(n) <==> m == n
  {
    if DecimalString(m) == DecimalString(n) {
      var a, b := if m < 0 then -m else m, if n < 0 then -n else n;
      NatStringValue(a);
      NatStringValue(b);
      if m < 0 {
        assert n < 0;
        assert DecimalString(m)[1..] == NatString(a);
        assert DecimalString(n)[1..] == NatString(b);
      }
    }
  }

  /** Results for distinct ids leave distinct lines in `discarded_lines`. */
  lemma ResultDiagnosticsDistinct(m: int, n: int)
    ensures "result for id " + DecimalString(m) == "result for id " + DecimalString(n) <==> m == n
  {
    var p := "result for id ";
    if p + DecimalString(m) == p + DecimalString(n) {
      assert (p + DecimalString(m))[|p|..] == DecimalString(m);
      assert (p + DecimalString(n))[|p|..] == DecimalString(n);
    }
    DecimalStringInjective(m, n);
  }

  /** The diagnostic line one message adds to `discarded_lines` (lines 101, 110-111). */
  function Diagnostic(p: Packet): set<string> {
    if p.OtherMethod? then {"method " + p.name}
    else if p.Result? && p.id != EVALUATE && p.nonEmpty then {"result for id " + DecimalString(p.id)}
    else {}
  }

  function Diagnostics(ps: seq<Packet>): set<string> {
    if ps == [] then {} else Diagnostics(AllButLast(ps)) + Diagnostic(Last(ps))
  }

  /** The commands sent for `n` load events: 4 then 5, each time. */
  function LoadCommands(n: nat): seq<int> {
    if n == 0 then [] else LoadCommands(n - 1) + [RUNTIME_ENABLE, EVALUATE]
  }

  /** The index of the first terminal message, or |ps| when there is none. */
  function FirstTerminal(ps: seq<Packet>): (k: nat)
    ensures k <= |ps|
    ensures k < |ps| ==> IsTerminal(ps[k])
    ensures forall j :: 0 <= j < k ==> !IsTerminal(ps[j])
  {
    if ps == [] then 0
    else if IsTerminal(ps[0]) then 0
    else 1 + FirstTerminal(ps[1..])
  }

  /** The state after reading the messages `pre`, none of them terminal. */
  function Running(pre: seq<Packet>): Session {
    Session(Metadata(ContentType(pre), Timings(pre)), None, Diagnostics(pre), false,
            OPENING + LoadCommands(Loads(pre)), |pre|)
  }

  /** The state after reading `pre` and then the evaluate result carrying `page`. */
  function Finished(pre: seq<Packet>, page: string): Session {
    var r := Running(pre);
    r.(page := Some(page), done := true, sent := r.sent + [NAVIGATE_BLANK], consumed := |pre| + 1)
  }

  /**
   * What the loop leaves behind for the messages `ps`: it reads up to and
   * including the first terminal one, if any; otherwise the channel runs
   * out with the loop still waiting.
   */
  function Outcome(ps: seq<Packet>): (s: Session)
    ensures s.done <==> s.page.Some?
  {
    var k := FirstTerminal(ps);
    if k < |ps| then Finished(ps[..k], ps[k].value) else Running(ps)
  }

  /**
   * A finished session read through the first evaluate result and keeps its
   * value as the page; an unfinished one read every message.
   */
  lemma OutcomeEnd(ps: seq<Packet>)
    ensures var s, k := Outcome(ps), FirstTerminal(ps);
      && (s.done <==> k < |ps|)
      && (s.done ==> s.page == Some(ps[k].value) && s.consumed == k + 1)
      && (!s.done ==> s.page == None && s.consumed == |ps|)
  {
  }

  /** The metadata of a session is built from the messages before its evaluate result, and only those. */
  lemma OutcomeMetadata(ps: seq<Packet>)
    ensures var pre := ps[..FirstTerminal(ps)];
      Outcome(ps).metadata == Metadata(ContentType(pre), Timings(pre))
  {
    if FirstTerminal(ps) == |ps| {
      assert ps[..|ps|] == ps;
    }
  }

  /** One more non-terminal message: how each part of the running state moves. */
  lemma RunningSnoc(pre: seq<Packet>, p: Packet)
    ensures Running(pre + [p]).metadata.contentType
         == if Qualifies(p) then Stored(p.contentType) else Running(pre).metadata.contentType
    ensures Running(pre + [p]).metadata.timings
         == Running(pre).metadata.timings + (if Qualifies(p) then [TimingOf(p)] else [])
    ensures Running(pre + [p]).discarded == Running(pre).discarded + Diagnostic(p)
    ensures Running(pre + [p]).sent
         == Running(pre).sent + (if p.LoadEventFired? then [RUNTIME_ENABLE, EVALUATE] else [])
    ensures Running(pre + [p]).page == None && !Running(pre + [p]).done
    ensures Running(pre + [p]).consumed == Running(pre).consumed + 1
  {
    var ps := pre + [p];
    assert AllButLast(ps) == pre && Last(ps) == p;
    var n := Loads(pre);
    if p.LoadEventFired? {
      assert Loads(ps) == n + 1;
      assert OPENING + LoadCommands(n + 1) == (OPENING + LoadCommands(n)) + [RUNTIME_ENABLE, EVALUATE];
    } else {
      assert Loads(ps) == n;
    }
  }

  /** A terminal message at an index no earlier terminal precedes is where the loop stops. */
  lemma FinishedAt(ps: seq<Packet>, i: nat)
    requires i < |ps| && i <= FirstTerminal(ps) && IsTerminal(ps[i])
    ensures FirstTerminal(ps) == i
    ensures Outcome(ps) == Running(ps[..i]).(page := Some(ps[i].value), done := true,
                                              sent := Running(ps[..i]).sent + [NAVIGATE_BLANK], consumed := i + 1)
  {
  }

  /** The loop of lines 66-112 over the messages the channel delivers. */
  method CaptureSession(packets: seq<Packet>) returns (s: Session)
    ensures s == Outcome(packets)
  {
    var metadata := Metadata(Absent, []);
    var page: Option<string> := None;
    var discarded: set<string> := {};
    var sent := OPENING;
    var done := false;
    var i := 0;
    while !done && i < |packets|
      invariant 0 <= i <= |packets|
      invariant !done ==> i <= FirstTerminal(packets)
      invariant !done ==> metadata == Running(packets[..i]).metadata && page == None
      invariant !done ==> discarded == Running(packets[..i]).discarded && sent == Running(packets[..i]).sent
      invariant done ==> 0 < i && i - 1 == FirstTerminal(packets)
      invariant done ==> Outcome(packets) == Session(metadata, page, discarded, done, sent, i)
    {
      var packet := packets[i];
      assert packets[..i + 1] == packets[..i] + [packet];
      RunningSnoc(packets[..i], packet);
      i := i + 1;
      if packet.EmptyMessage? {
        // nothing to parse
      } else if packet.Error? {
        // logged and skipped
      } else if packet.ResponseReceived? {
        if packet.protocol != "data" {
          GuardNeverBlocks(metadata);
          if "content-type" !in Keys(metadata) {
            metadata := metadata.(contentType := Stored(packet.contentType));
          }
          metadata := metadata.(timings := metadata.timings + [Timing(packet.url, packet.timestamp - packet.requestTime)]);
        }
      } else if packet.LoadEventFired? {
        sent := sent + [RUNTIME_ENABLE, EVALUATE];
      } else if packet.OtherMethod? {
        discarded := discarded + {"method " + packet.name};
      } else {
        if packet.id == EVALUATE {
          FinishedAt(packets, i - 1);
          page := Some(packet.value);
          done := true;
          sent := sent + [NAVIGATE_BLANK];
        } else if packet.nonEmpty {
          discarded := discarded + {"result for id " + DecimalString(packet.id)};
        }
      }
    }
    if !done {
      assert packets[..i] == packets;
    }
    s := Session(metadata, page, discarded, done, sent, i);
  }
}
