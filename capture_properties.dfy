/**
 * Properties of the capture loop's outcome: how each kind of message, in
 * any context, changes what the loop ends with.
 */
module CaptureProperties {
  import opened Wrappers
  import opened Capture

  /** The state after `x`'s messages followed by those behind `y`, `x` not being finished. */
  function Compose(x: Session, y: Session): Session
    requires |y.sent| >= |OPENING|
  {
    Session(
      Metadata(if y.metadata.contentType.Absent? then x.metadata.contentType else y.metadata.contentType,
               x.metadata.timings + y.metadata.timings),
      y.page, x.discarded + y.discarded, y.done, x.sent + y.sent[|OPENING|..], x.consumed + y.consumed)
  }

  lemma SplitLast(a: seq<Packet>, c: seq<Packet>)
    requires c != []
    ensures a + c != [] && AllButLast(a + c) == a + AllButLast(c) && Last(a + c) == Last(c)
  {
    assert (a + c)[..|a + c| - 1] == a + c[..|c| - 1];
  }

  lemma {:induction false} TimingsAppend(a: seq<Packet>, c: seq<Packet>)
    ensures Timings(a + c) == Timings(a) + Timings(c)
    decreases |c|
  {
    if c == [] {
      assert a + c == a;
    } else {
      SplitLast(a, c);
      TimingsAppend(a, AllButLast(c));
    }
  }

  lemma {:induction false} ContentTypeAppend(a: seq<Packet>, c: seq<Packet>)
    ensures ContentType(a + c) == if ContentType(c).Absent? then ContentType(a) else ContentType(c)
    decreases |c|
  {
    if c == [] {
      assert a + c == a;
    } else {
      SplitLast(a, c);
      ContentTypeAppend(a, AllButLast(c));
    }
  }

  lemma {:induction false} LoadsAppend(a: seq<Packet>, c: seq<Packet>)
    ensures Loads(a + c) == Loads(a) + Loads(c)
    decreases |c|
  {
    if c == [] {
      assert a + c == a;
    } else {
      SplitLast(a, c);
      LoadsAppend(a, AllButLast(c));
    }
  }

  lemma {:induction false} DiagnosticsAppend(a: seq<Packet>, c: seq<Packet>)
    ensures Diagnostics(a + c) == Diagnostics(a) + Diagnostics(c)
    decreases |c|
  {
    if c == [] {
      assert a + c == a;
    } else {
      SplitLast(a, c);
      DiagnosticsAppend(a, AllButLast(c));
    }
  }

  lemma {:induction false} LoadCommandsAppend(m: nat, n: nat)
    ensures LoadCommands(m + n) == LoadCommands(m) + LoadCommands(n)
  {
    if n > 0 {
      LoadCommandsAppend(m, n - 1);
    }
  }

  /** The commands sent while reading `a + c`: those for `a`, then the load commands for `c`. */
  lemma SentAppend(a: seq<Packet>, c: seq<Packet>)
    ensures Running(a + c).sent == Running(a).sent + Running(c).sent[|OPENING|..]
  {
    LoadsAppend(a, c);
    LoadCommandsAppend(Loads(a), Loads(c));
    assert Running(c).sent[|OPENING|..] == LoadCommands(Loads(c));
  }

  /** Reading `a` and then `c` builds the state of reading `a + c`. */
  lemma RunningAppend(a: seq<Packet>, c: seq<Packet>)
    ensures Running(a + c) == Compose(Running(a), Running(c))
  {
    var x, y, z := Running(a), Running(c), Running(a + c);
    var w := Compose(x, y);
    assert z.metadata.timings == w.metadata.timings by { TimingsAppend(a, c); }
    assert z.metadata.contentType == w.metadata.contentType by { ContentTypeAppend(a, c); }
    assert z.discarded == w.discarded by { DiagnosticsAppend(a, c); }
    assert z.sent == w.sent by { SentAppend(a, c); }
  }

  lemma {:induction false} FirstTerminalAppend(a: seq<Packet>, c: seq<Packet>)
    requires FirstTerminal(a) == |a|
    ensures FirstTerminal(a + c) == |a| + FirstTerminal(c)
  {
    if a == [] {
      assert a + c == c;
    } else {
      assert (a + c)[0] == a[0] && (a + c)[1..] == a[1..] + c;
      FirstTerminalAppend(a[1..], c);
    }
  }

  lemma FinishedAppend(a: seq<Packet>, c: seq<Packet>, page: string)
    ensures Finished(a + c, page) == Compose(Running(a), Finished(c, page))
  {
    RunningAppend(a, c);
    var x, y := Running(a), Running(c);
    var f := Finished(c, page);
    assert f.sent[|OPENING|..] == y.sent[|OPENING|..] + [NAVIGATE_BLANK];
    assert Compose(x, f).sent == Compose(x, y).sent + [NAVIGATE_BLANK];
    assert Compose(x, f).consumed == |a + c| + 1;
  }

  /**
   * The loop's outcome over `a + b`, when `a` holds no evaluate result, is
   * the state after `a` continued by the outcome over `b`.
   */
  lemma Decompose(a: seq<Packet>, b: seq<Packet>)
    requires FirstTerminal(a) == |a|
    ensures Outcome(a + b) == Compose(Running(a), Outcome(b))
  {
    FirstTerminalAppend(a, b);
    if FirstTerminal(b) < |b| {
      DecomposeFinished(a, b);
    } else {
      assert Outcome(a + b) == Running(a + b);
      RunningAppend(a, b);
    }
  }

  /** The outcome when the first evaluate result is at index `k`. */
  lemma OutcomeAt(ps: seq<Packet>, k: nat)
    requires k == FirstTerminal(ps) && k < |ps|
    ensures Outcome(ps) == Finished(ps[..k], ps[k].value)
  {
  }

  lemma SliceAppend(a: seq<Packet>, b: seq<Packet>, k: nat)
    requires k < |b|
    ensures (a + b)[..|a| + k] == a + b[..k] && (a + b)[|a| + k] == b[k]
  {
  }

  lemma DecomposeFinished(a: seq<Packet>, b: seq<Packet>)
    requires FirstTerminal(b) < |b| && FirstTerminal(a + b) == |a| + FirstTerminal(b)
    ensures Outcome(a + b) == Compose(Running(a), Outcome(b))
  {
    var k := FirstTerminal(b);
    calc {
      Outcome(a + b);
    == { OutcomeAt(a + b, |a| + k); }
      Finished((a + b)[..|a| + k], (a + b)[|a| + k].value);
    == { SliceAppend(a, b, k); }
      Finished(a + b[..k], b[k].value);
    == { FinishedAppend(a, b[..k], b[k].value); }
      Compose(Running(a), Finished(b[..k], b[k].value));
    == { OutcomeAt(b, k); }
      Compose(Running(a), Outcome(b));
    }
  }

  /** A message after a prefix without an evaluate result: split the input around it. */
  lemma DecomposeAround(a: seq<Packet>, p: Packet, b: seq<Packet>)
    requires FirstTerminal(a) == |a| && !IsTerminal(p)
    ensures Outcome(a + [p] + b) == Compose(Compose(Running(a), Running([p])), Outcome(b))
    ensures Outcome(a + b) == Compose(Running(a), Outcome(b))
  {
    FirstTerminalAppend(a, [p]);
    assert FirstTerminal([p]) == 1;
    Decompose(a + [p], b);
    RunningAppend(a, [p]);
    Decompose(a, b);
  }

  /** The state after one message. */
  lemma RunningOne(p: Packet)
    ensures Running([p]).metadata.contentType == if Qualifies(p) then Stored(p.contentType) else Absent
    ensures Running([p]).metadata.timings == if Qualifies(p) then [TimingOf(p)] else []
    ensures Running([p]).discarded == Diagnostic(p)
    ensures Running([p]).sent == OPENING + (if p.LoadEventFired? then [RUNTIME_ENABLE, EVALUATE] else [])
    ensures Running([p]).page == None && !Running([p]).done && Running([p]).consumed == 1
  {
    assert AllButLast([p]) == [] && Last([p]) == p;
    assert Timings([p]) == Timings([]) + (if Qualifies(p) then [TimingOf(p)] else []);
    assert ContentType([p]) == if Qualifies(p) then Stored(p.contentType) else ContentType([]);
    assert Diagnostics([p]) == Diagnostics([]) + Diagnostic(p);
    assert Loads([p]) == if p.LoadEventFired? then 1 else 0;
    assert LoadCommands(1) == [RUNTIME_ENABLE, EVALUATE];
  }

  /** Composing with the state after one message that touches no variable only counts the message. */
  lemma ComposeNeutral(x: Session, u: Session, y: Session)
    requires |y.sent| >= |OPENING|
    requires u.metadata == Metadata(Absent, []) && u.discarded == {} && u.sent == OPENING && u.consumed == 1
    ensures var s := Compose(x, y); Compose(Compose(x, u), y) == s.(consumed := s.consumed + 1)
  {
    var s, t := Compose(x, y), Compose(Compose(x, u), y);
    assert t.metadata.timings == s.metadata.timings;
    assert t.discarded == s.discarded;
    assert t.sent == s.sent;
  }

  /**
   * An error message (even one carrying id 5), an empty message, a "data"
   * response and an empty non-evaluate result change nothing: no timing, no
   * content type, no diagnostic, no command, and the loop goes on.
   */
  lemma InertIgnored(a: seq<Packet>, p: Packet, b: seq<Packet>)
    requires FirstTerminal(a) == |a| && Inert(p)
    ensures var s := Outcome(a + b); Outcome(a + [p] + b) == s.(consumed := s.consumed + 1)
  {
    DecomposeAround(a, p, b);
    RunningOne(p);
    ComposeNeutral(Running(a), Running([p]), Outcome(b));
  }

  lemma ComposeLoad(x: Session, u: Session, y: Session)
    requires |y.sent| >= |OPENING|
    requires u.metadata == Metadata(Absent, []) && u.discarded == {} && u.consumed == 1
    requires u.sent == OPENING + [RUNTIME_ENABLE, EVALUATE]
    ensures var s := Compose(x, y);
      Compose(Compose(x, u), y) == s.(sent := x.sent + [RUNTIME_ENABLE, EVALUATE] + y.sent[|OPENING|..], consumed := s.consumed + 1)
  {
    var s, t := Compose(x, y), Compose(Compose(x, u), y);
    assert t.metadata.timings == s.metadata.timings;
    assert t.discarded == s.discarded;
    assert u.sent[|OPENING|..] == [RUNTIME_ENABLE, EVALUATE];
  }

  /**
   * A load event sends Runtime.enable then Runtime.evaluate, right after the
   * commands sent so far, and does not end the loop; later load events send
   * them again.
   */
  lemma LoadEventResends(a: seq<Packet>, b: seq<Packet>)
    requires FirstTerminal(a) == |a|
    ensures var s, t := Outcome(a + b), Outcome(a + [LoadEventFired] + b);
      var n := |OPENING| + 2 * Loads(a);
      n <= |s.sent| &&
      t == s.(sent := s.sent[..n] + [RUNTIME_ENABLE, EVALUATE] + s.sent[n..], consumed := s.consumed + 1)
  {
    DecomposeAround(a, LoadEventFired, b);
    RunningOne(LoadEventFired);
    var x, y := Running(a), Outcome(b);
    ComposeLoad(x, Running([LoadEventFired]), y);
    LoadCommandsLength(Loads(a));
    var s := Compose(x, y);
    assert |x.sent| == |OPENING| + 2 * Loads(a);
    assert s.sent[..|x.sent|] == x.sent && s.sent[|x.sent|..] == y.sent[|OPENING|..];
  }

  lemma ComposeResponse(x: Session, u: Session, y: Session, t: Timing)
    requires |y.sent| >= |OPENING|
    requires u.metadata.timings == [t] && u.discarded == {} && u.sent == OPENING && u.consumed == 1
    ensures var s, c := Compose(x, y), Compose(Compose(x, u), y);
      && c.metadata.timings == x.metadata.timings + [t] + y.metadata.timings
      && c.page == s.page && c.discarded == s.discarded && c.done == s.done && c.sent == s.sent
      && c.consumed == s.consumed + 1
  {
    var s, c := Compose(x, y), Compose(Compose(x, u), y);
    assert c.discarded == s.discarded;
    assert c.sent == s.sent;
  }

  /**
   * A non-"data" response appends exactly one timing, `[url, timestamp -
   * requestTime]`, after those of the earlier responses; no deduplication.
   * Only the content-type entry and the timings can differ.
   */
  lemma ResponseRecorded(a: seq<Packet>, r: Packet, b: seq<Packet>)
    requires FirstTerminal(a) == |a| && Qualifies(r)
    ensures var s, t := Outcome(a + b), Outcome(a + [r] + b);
      var m := |Timings(a)|;
      m <= |s.metadata.timings| &&
      t.metadata.timings == s.metadata.timings[..m] + [TimingOf(r)] + s.metadata.timings[m..] &&
      t.page == s.page && t.discarded == s.discarded && t.done == s.done && t.sent == s.sent &&
      t.consumed == s.consumed + 1
  {
    DecomposeAround(a, r, b);
    RunningOne(r);
    var x, y := Running(a), Outcome(b);
    ComposeResponse(x, Running([r]), y, TimingOf(r));
    var ts := Compose(x, y).metadata.timings;
    assert ts == Timings(a) + y.metadata.timings;
    assert ts[..|Timings(a)|] == Timings(a) && ts[|Timings(a)|..] == y.metadata.timings;
  }

  lemma ComposeUnhandled(x: Session, u: Session, y: Session)
    requires |y.sent| >= |OPENING|
    requires u.metadata == Metadata(Absent, []) && u.sent == OPENING && u.consumed == 1
    ensures var s := Compose(x, y);
      Compose(Compose(x, u), y) == s.(discarded := s.discarded + u.discarded, consumed := s.consumed + 1)
  {
    var s, c := Compose(x, y), Compose(Compose(x, u), y);
    assert c.metadata.timings == s.metadata.timings;
    assert c.discarded == s.discarded + u.discarded;
    assert c.sent == s.sent;
  }

  /**
   * An unrecognised method adds "method <name>" to the diagnostics, a
   * non-empty result for another id adds "result for id <n>"; neither ends
   * the loop or changes anything else.
   */
  lemma UnhandledRecorded(a: seq<Packet>, p: Packet, b: seq<Packet>)
    requires FirstTerminal(a) == |a|
    requires p.OtherMethod? || (p.Result? && p.id != EVALUATE && p.nonEmpty)
    ensures var s := Outcome(a + b);
      Outcome(a + [p] + b) == s.(discarded := s.discarded + Diagnostic(p), consumed := s.consumed + 1)
    ensures p.OtherMethod? ==> Diagnostic(p) == {"method " + p.name}
    ensures p.Result? ==> Diagnostic(p) == {"result for id " + DecimalString(p.id)}
  {
    DecomposeAround(a, p, b);
    RunningOne(p);
    ComposeUnhandled(Running(a), Running([p]), Outcome(b));
  }

  /**
   * The first evaluate result ends the loop: the page is its value, command
   * 6 is sent once after what was sent before, and nothing after it is read.
   */
  lemma EvaluateResultEnds(a: seq<Packet>, nonEmpty: bool, value: string, b: seq<Packet>)
    requires FirstTerminal(a) == |a|
    ensures Outcome(a + [Result(EVALUATE, nonEmpty, value)] + b) == Finished(a, value)
    ensures Finished(a, value).done && Finished(a, value).page == Some(value)
    ensures Finished(a, value).sent == Running(a).sent + [NAVIGATE_BLANK]
    ensures Finished(a, value).consumed == |a| + 1
  {
    var p := Result(EVALUATE, nonEmpty, value);
    var ps := a + [p] + b;
    FirstTerminalAppend(a, [p] + b);
    assert ps == a + ([p] + b);
    assert ps[..|a|] == a && ps[|a|] == p;
  }

  lemma {:induction false} FirstTerminalExtend(ps: seq<Packet>, rest: seq<Packet>)
    requires FirstTerminal(ps) < |ps|
    ensures FirstTerminal(ps + rest) == FirstTerminal(ps)
  {
    assert (ps + rest)[0] == ps[0];
    if !IsTerminal(ps[0]) {
      assert (ps + rest)[1..] == ps[1..] + rest;
      FirstTerminalExtend(ps[1..], rest);
    }
  }

  /** Messages after the first evaluate result are never read. */
  lemma StopsAtFirstTerminal(ps: seq<Packet>, rest: seq<Packet>)
    requires FirstTerminal(ps) < |ps|
    ensures Outcome(ps + rest) == Outcome(ps)
  {
    var k := FirstTerminal(ps);
    FirstTerminalExtend(ps, rest);
    assert (ps + rest)[..k] == ps[..k];
    assert (ps + rest)[k] == ps[k];
  }

  lemma {:induction false} LoadCommandsLength(n: nat)
    ensures |LoadCommands(n)| == 2 * n
  {
    if n > 0 {
      LoadCommandsLength(n - 1);
    }
  }

  lemma {:induction false} LoadCommandsAt(n: nat, j: nat)
    requires j < 2 * n
    ensures |LoadCommands(n)| == 2 * n
    ensures LoadCommands(n)[j] == if j % 2 == 0 then RUNTIME_ENABLE else EVALUATE
  {
    LoadCommandsLength(n);
    if j < 2 * (n - 1) {
      LoadCommandsAt(n - 1, j);
    } else {
      LoadCommandsLength(n - 1);
    }
  }

  /**
   * The sent ids are 1, 2, 3, then 4, 5 once per load event read, then 6
   * exactly when the loop ended; 6 is sent at most once and only last.
   */
  lemma SentLog(ps: seq<Packet>)
    ensures var s := Outcome(ps);
      var pre := ps[..FirstTerminal(ps)];
      var n := Loads(pre);
      && |s.sent| == |OPENING| + 2 * n + (if s.done then 1 else 0)
      && s.sent[..|OPENING|] == [PAGE_ENABLE, NETWORK_ENABLE, NAVIGATE]
      && (forall j :: 0 <= j < 2 * n ==> s.sent[|OPENING| + j] == if j % 2 == 0 then RUNTIME_ENABLE else EVALUATE)
      && (s.done ==> s.sent[|s.sent| - 1] == NAVIGATE_BLANK)
      && (NAVIGATE_BLANK in s.sent <==> s.done)
  {
    var s := Outcome(ps);
    var k := FirstTerminal(ps);
    var pre := ps[..k];
    if k == |ps| {
      assert pre == ps;
    }
    assert s.sent == OPENING + LoadCommands(Loads(pre)) + (if s.done then [NAVIGATE_BLANK] else []);
    SentShape(Loads(pre), s.done);
  }

  /** The shape of the sent log: the opening three, n pairs 4,5, and 6 when finished. */
  lemma SentShape(n: nat, done: bool)
    ensures var sent := OPENING + LoadCommands(n) + (if done then [NAVIGATE_BLANK] else []);
      && |sent| == |OPENING| + 2 * n + (if done then 1 else 0)
      && sent[..|OPENING|] == [PAGE_ENABLE, NETWORK_ENABLE, NAVIGATE]
      && (forall j :: 0 <= j < 2 * n ==> sent[|OPENING| + j] == if j % 2 == 0 then RUNTIME_ENABLE else EVALUATE)
      && (done ==> sent[|sent| - 1] == NAVIGATE_BLANK)
      && (NAVIGATE_BLANK in sent <==> done)
  {
    var lc := LoadCommands(n);
    var sent := OPENING + lc + (if done then [NAVIGATE_BLANK] else []);
    LoadCommandsLength(n);
    assert sent[..|OPENING|] == OPENING;
    forall j | 0 <= j < 2 * n
      ensures sent[|OPENING| + j] == if j % 2 == 0 then RUNTIME_ENABLE else EVALUATE
    {
      assert sent[|OPENING| + j] == lc[j];
      LoadCommandsAt(n, j);
    }
    forall j | 0 <= j < |OPENING| + 2 * n
      ensures sent[j] != NAVIGATE_BLANK
    {
      if j >= |OPENING| {
        assert sent[j] == lc[j - |OPENING|];
        LoadCommandsAt(n, j - |OPENING|);
      }
    }
  }

  /** The positions of the non-"data" responses among `ps`. */
  function QualifyingIndices(ps: seq<Packet>): set<nat> {
    set k: nat | k < |ps| && Qualifies(ps[k])
  }

  /** There is one timing per non-"data" response read, whether or not its URL repeats. */
  lemma {:induction false} TimingsCount(ps: seq<Packet>)
    ensures |Timings(ps)| == |QualifyingIndices(ps)|
  {
    if ps != [] {
      var init := AllButLast(ps);
      TimingsCount(init);
      var last := |ps| - 1;
      assert forall k :: 0 <= k < |init| ==> init[k] == ps[k];
      if Qualifies(ps[last]) {
        assert QualifyingIndices(ps) == QualifyingIndices(init) + {last};
      } else {
        assert QualifyingIndices(ps) == QualifyingIndices(init);
      }
    }
  }

  /** With at least one non-"data" response, the content type is the header of the last one. */
  lemma {:induction false} ContentTypeIsLast(ps: seq<Packet>, j: nat)
    requires j < |ps| && Qualifies(ps[j])
    requires forall k :: j < k < |ps| ==> !Qualifies(ps[k])
    ensures ContentType(ps) == Stored(ps[j].contentType)
  {
    if j < |ps| - 1 {
      var init := AllButLast(ps);
      assert forall k :: j < k < |init| ==> init[k] == ps[k];
      ContentTypeIsLast(init, j);
    }
  }

  /** The content-type key is present exactly when some non-"data" response was read. */
  lemma {:induction false} ContentTypeAbsentIff(ps: seq<Packet>)
    ensures ContentType(ps) == Absent <==> forall k :: 0 <= k < |ps| ==> !Qualifies(ps[k])
  {
    if ps != [] {
      var init := AllButLast(ps);
      ContentTypeAbsentIff(init);
      assert forall k :: 0 <= k < |init| ==> init[k] == ps[k];
    }
  }

  /** Over a whole session: one timing per non-"data" response read before the evaluate result. */
  lemma OutcomeTimingsCount(ps: seq<Packet>)
    ensures |Outcome(ps).metadata.timings| == |QualifyingIndices(ps[..FirstTerminal(ps)])|
  {
    OutcomeMetadata(ps);
    TimingsCount(ps[..FirstTerminal(ps)]);
  }

  /**
   * Over a whole session: the stored content type is the header of the last
   * non-"data" response read before the evaluate result.
   */
  lemma OutcomeContentTypeIsLast(ps: seq<Packet>, j: nat)
    requires j < FirstTerminal(ps) && Qualifies(ps[j])
    requires forall k :: j < k < FirstTerminal(ps) ==> !Qualifies(ps[k])
    ensures Outcome(ps).metadata.contentType == Stored(ps[j].contentType)
  {
    var pre := ps[..FirstTerminal(ps)];
    assert forall k :: 0 <= k < |pre| ==> pre[k] == ps[k];
    OutcomeMetadata(ps);
    ContentTypeIsLast(pre, j);
  }

  /**
   * Over a whole session: the `Content-Type` key is absent exactly when no
   * non-"data" response came before the evaluate result.
   */
  lemma OutcomeContentTypeAbsentIff(ps: seq<Packet>)
    ensures Outcome(ps).metadata.contentType == Absent <==>
      forall k :: 0 <= k < FirstTerminal(ps) ==> !Qualifies(ps[k])
  {
    var pre := ps[..FirstTerminal(ps)];
    assert forall k :: 0 <= k < |pre| ==> pre[k] == ps[k];
    OutcomeMetadata(ps);
    ContentTypeAbsentIff(pre);
  }

  /**
   * The first response's header is not the one kept: of two responses the
   * second's content type is stored.
   */
  lemma LastResponseWins()
    ensures var first := ResponseReceived("https", "https://example.com/", Some("text/html"), 10, 7);
      var second := ResponseReceived("https", "https://example.com/style.css", Some("text/css"), 12, 11);
      var o := Outcome([first, second, Result(EVALUATE, true, "<html></html>")]);
      o.metadata.contentType == Stored(Some("text/css")) &&
      o.metadata.timings == [Timing("https://example.com/", 3), Timing("https://example.com/style.css", 1)]
  {
    var first := ResponseReceived("https", "https://example.com/", Some("text/html"), 10, 7);
    var second := ResponseReceived("https", "https://example.com/style.css", Some("text/css"), 12, 11);
    var last := Result(EVALUATE, true, "<html></html>");
    var ps := [first, second, last];
    assert "https"[0] != "data"[0];
    assert ps[1..] == [second, last] && ps[1..][1..] == [last];
    assert FirstTerminal([last]) == 0;
    assert FirstTerminal(ps) == 2;
    var pre := ps[..2];
    assert pre == [first, second];
    assert AllButLast(pre) == [first] && Last(pre) == second;
    assert AllButLast([first]) == [] && Last([first]) == first;
    assert Timings([first]) == [Timing("https://example.com/", 3)];
    assert Timings(pre) == [Timing("https://example.com/", 3), Timing("https://example.com/style.css", 1)];
  }
}
