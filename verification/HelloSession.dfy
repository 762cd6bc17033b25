/**
  The request counters of a session: how many requests were received, how many
  succeeded, and by difference how many failed.  The pair starts over when the
  receive counter has reached bit 32.
 */
module HelloSessionClass {

  const TWO_32: nat := 0x1_0000_0000
  const TWO_64: nat := 0x1_0000_0000_0000_0000

  /** A call on the session, with the request it is about. */
  datatype Call = Recv(id: int) | Succ(id: int)

  datatype Counters = Counters(recv: nat, succ: nat)

  predicate BitSet(n: nat, mask: nat)
    requires mask > 0
  {
    n / mask % 2 == 1
  }

  function Step(c: Counters, call: Call): (r: Counters) {
    match call
    case Recv(_) =>
      var d := if BitSet(c.recv, TWO_32) then Counters(0, 0) else c;
      d.(recv := (d.recv + 1) % TWO_64)
    case Succ(_) => c.(succ := (c.succ + 1) % TWO_64)
  }

  /** The counters after a whole run of calls on a new session. */
  function After(run: seq<Call>): (c: Counters) {
    if run == [] then Counters(0, 0) else Step(After(run[..|run| - 1]), run[|run| - 1])
  }

  /** GetFailed: an unsigned subtraction. */
  function Failed(c: Counters): (n: nat) {
    (c.recv - c.succ) % TWO_64
  }

  class HelloSession {
    var recvCounter: nat
    var succCounter: nat

    ghost function State(): Counters
      reads this
    {
      Counters(recvCounter, succCounter)
    }

    constructor ()
      ensures State() == After([])
    {
      recvCounter, succCounter := 0, 0;
    }

    method IncrRecv(ghost run: seq<Call>, ghost id: int)
      requires State() == After(run)
      modifies this
      ensures State() == After(run + [Recv(id)])
      ensures recvCounter == Received(run) % 0x1_0000_0000 + 1
    {
      if BitSet(recvCounter, TWO_32) {
        recvCounter, succCounter := 0, 0;
      }
      recvCounter := (recvCounter + 1) % TWO_64;
      Snoc(run, Recv(id));
      CountSnoc(run, Recv(id));
      RecvClosedForm(run + [Recv(id)]);
    }

    method IncrSucc(ghost run: seq<Call>, ghost id: int)
      requires State() == After(run)
      modifies this`succCounter
      ensures State() == After(run + [Succ(id)])
      ensures succCounter == Succeeded(Window(run + [Succ(id)])) % 0x1_0000_0000_0000_0000
    {
      succCounter := (succCounter + 1) % TWO_64;
      Snoc(run, Succ(id));
      CountersOfWindow(run + [Succ(id)]);
    }

    /** GetFailed: the receives of the window less its successes, modulo 2^64; so the true difference
        exactly when there are no more successes than receives, and under the answering discipline the
        requests of the window that no success has answered. */
    method GetFailed(ghost run: seq<Call>) returns (n: nat)
      requires State() == After(run)
      ensures n == (Received(Window(run)) - Succeeded(Window(run))) % 0x1_0000_0000_0000_0000
      ensures n == Failed(State())
      ensures Succeeded(Window(run)) <= Received(Window(run)) <==> n == Received(Window(run)) - Succeeded(Window(run))
      ensures Disciplined(Window(run)) ==> n == |Ids(Window(run)) - Answered(Window(run))|
    {
      hide After, Window, Received, Succeeded, Disciplined, Ids, Answered;
      FailedIs(run);
      FailedIff(run);
      if Disciplined(Window(run)) { FailedCountsUnanswered(run); }
      n := (recvCounter - succCounter) % TWO_64;
    }
  }

  lemma Snoc(run: seq<Call>, call: Call)
    ensures After(run + [call]) == Step(After(run), call)
  {
    assert (run + [call])[..|run|] == run;
  }

  // ------------------------------------------------------- the closed form

  function Received(run: seq<Call>): (n: nat) {
    if run == [] then 0 else Received(run[..|run| - 1]) + if run[|run| - 1].Recv? then 1 else 0
  }

  /** In every run with n receives, whatever successes come between, the receive counter is zero
      for n = 0 and ((n - 1) mod 2^32) + 1 otherwise; it never exceeds 2^32. */
  lemma {:induction false} RecvClosedForm(run: seq<Call>)
    ensures var n := Received(run);
            After(run).recv == (if n == 0 then 0 else (n - 1) % 0x1_0000_0000 + 1) <= 0x1_0000_0000
  {
    if run != [] {
      RecvClosedForm(run[..|run| - 1]);
      NextRecv(Received(run[..|run| - 1]));
    }
  }

  /** Up to 2^32 receives are counted one by one; the next one starts over. */
  lemma {:induction false} RecvExact(run: seq<Call>)
    ensures After(run).recv == Received(run) <==> Received(run) <= 0x1_0000_0000
    ensures Received(run) == 0x1_0000_0001 ==> After(run).recv == 1
  {
    hide After, Received;
    RecvClosedForm(run);
  }

  lemma NextRecv(n: nat)
    ensures var c := if n == 0 then 0 else (n - 1) % TWO_32 + 1;
            && (BitSet(c, TWO_32) <==> c == TWO_32)
            && n % TWO_32 + 1 == if c == TWO_32 then 1 else c + 1
  {
    if n > 0 {
      var q, r := (n - 1) / TWO_32, (n - 1) % TWO_32;
      assert n == TWO_32 * q + (r + 1);
      if r + 1 < TWO_32 { assert n % TWO_32 == r + 1; } else { assert n == TWO_32 * (q + 1); }
    }
  }

  // -------------------------------------------------- since the last reset

  /** The calls since the last reset: a receive that finds 2^32 receives starts anew. */
  function Window(run: seq<Call>): (w: seq<Call>) {
    if run == [] then []
    else
      var w, call := Window(run[..|run| - 1]), run[|run| - 1];
      if call.Recv? && Received(w) == 0x1_0000_0000 then [call] else w + [call]
  }

  function Succeeded(run: seq<Call>): (n: nat) {
    if run == [] then 0 else Succeeded(run[..|run| - 1]) + if run[|run| - 1].Succ? then 1 else 0
  }

  lemma CountSnoc(run: seq<Call>, call: Call)
    ensures Received(run + [call]) == Received(run) + if call.Recv? then 1 else 0
    ensures Succeeded(run + [call]) == Succeeded(run) + if call.Succ? then 1 else 0
  {
    assert (run + [call])[..|run|] == run;
  }

  lemma Added(n: nat)
    ensures (n % TWO_64 + 1) % TWO_64 == (n + 1) % TWO_64
  {
  }

  lemma FullAt(c: nat)
    requires c <= TWO_32
    ensures BitSet(c, TWO_32) <==> c == TWO_32
  {
  }

  /** The window is the end of the run. */
  lemma {:induction false} WindowIsSuffix(run: seq<Call>)
    ensures |Window(run)| <= |run| && Window(run) == run[|run| - |Window(run)|..]
  {
    if run != [] {
      WindowIsSuffix(run[..|run| - 1]);
    }
  }

  lemma WindowStep(w: seq<Call>, call: Call)
    requires Received(w) <= TWO_32
    ensures var c := Step(Counters(Received(w), Succeeded(w) % TWO_64), call);
            var v := if call.Recv? && Received(w) == TWO_32 then [call] else w + [call];
            c.recv == Received(v) <= TWO_32 && c.succ == Succeeded(v) % TWO_64
  {
    FullAt(Received(w));
    CountSnoc(w, call);
    CountSnoc([], call);
    assert [] + [call] == [call];
    Added(Succeeded(w));
  }

  /** The counters count the receives and, modulo 2^64, the successes since the last reset. */
  lemma {:induction false} CountersOfWindow(run: seq<Call>)
    ensures After(run).recv == Received(Window(run)) <= 0x1_0000_0000
    ensures After(run).succ == Succeeded(Window(run)) % 0x1_0000_0000_0000_0000
  {
    if run != [] {
      CountersOfWindow(run[..|run| - 1]);
      WindowStep(Window(run[..|run| - 1]), run[|run| - 1]);
    }
  }

  /** Whatever the run, GetFailed is the difference since the reset modulo 2^64. */
  lemma {:induction false} FailedIs(run: seq<Call>)
    ensures var w := Window(run);
            Failed(After(run)) == (Received(w) - Succeeded(w)) % 0x1_0000_0000_0000_0000
  {
    hide After, Window, Received, Succeeded;
    CountersOfWindow(run);
    SubtractMod(Received(Window(run)), Succeeded(Window(run)));
  }

  lemma SubtractMod(a: nat, b: nat)
    ensures (a - b % TWO_64) % TWO_64 == (a - b) % TWO_64
  {
    var q := b / TWO_64;
    assert a - b % TWO_64 == (a - b) + TWO_64 * q;
    AddMultiple(a - b, q);
  }

  lemma {:induction false} AddMultiple(n: int, q: nat)
    ensures (n + TWO_64 * q) % TWO_64 == n % TWO_64
    decreases q
  {
    if q > 0 {
      AddMultiple(n, q - 1);
      assert n + TWO_64 * q == (n + TWO_64 * (q - 1)) + TWO_64;
    }
  }

  /** GetFailed is the true difference since the reset exactly when there are no more successes
      than receives since then; otherwise it wraps. */
  lemma {:induction false} FailedIff(run: seq<Call>)
    ensures var w := Window(run);
            Failed(After(run)) == Received(w) - Succeeded(w) <==> Succeeded(w) <= Received(w)
  {
    CountersOfWindow(run);
    var w := Window(run);
    if Succeeded(w) <= Received(w) {
      assert Succeeded(w) % TWO_64 == Succeeded(w);
    }
  }

  // ------------------------------------------------------------ answering

  function Ids(w: seq<Call>): (s: set<int>) {
    set i | 0 <= i < |w| && w[i].Recv? :: w[i].id
  }

  function Answered(w: seq<Call>): (s: set<int>) {
    set i | 0 <= i < |w| && w[i].Succ? :: w[i].id
  }

  /** Since the last reset every request is new, and every success answers a request received
      since the reset that was not answered before. */
  predicate Disciplined(w: seq<Call>) {
    forall i | 0 <= i < |w| ::
      if w[i].Recv? then w[i].id !in Ids(w[..i]) else w[i].id in Ids(w[..i]) && w[i].id !in Answered(w[..i])
  }

  lemma IdsSnoc(w: seq<Call>, call: Call)
    ensures Ids(w + [call]) == Ids(w) + if call.Recv? then {call.id} else {}
    ensures Answered(w + [call]) == Answered(w) + if call.Succ? then {call.id} else {}
  {
    var v := w + [call];
    assert v[|w|] == call && forall i | 0 <= i < |w| :: v[i] == w[i];
  }

  lemma DisciplinedPrefix(w: seq<Call>, call: Call)
    requires Disciplined(w + [call])
    ensures Disciplined(w)
    ensures if call.Recv? then call.id !in Ids(w) else call.id in Ids(w) && call.id !in Answered(w)
  {
    var v := w + [call];
    forall i | 0 <= i < |w|
      ensures if w[i].Recv? then w[i].id !in Ids(w[..i]) else w[i].id in Ids(w[..i]) && w[i].id !in Answered(w[..i])
    {
      assert v[i] == w[i] && v[..i] == w[..i];
    }
    assert v[|w|] == call && v[..|w|] == w;
  }

  lemma {:induction false} CountsAreCardinalities(w: seq<Call>)
    requires Disciplined(w)
    ensures Answered(w) <= Ids(w) && |Ids(w)| == Received(w) && |Answered(w)| == Succeeded(w)
  {
    if w == [] {
      assert Ids(w) == {} && Answered(w) == {};
    } else {
      var v, call := w[..|w| - 1], w[|w| - 1];
      assert w == v + [call];
      DisciplinedPrefix(v, call);
      CountsAreCardinalities(v);
      IdsSnoc(v, call);
      CountSnoc(v, call);
    }
  }

  /** If every success answers a distinct request received since the last reset, GetFailed never
      wraps and is the number of requests since then that are still unanswered. */
  lemma {:induction false} FailedCountsUnanswered(run: seq<Call>)
    requires Disciplined(Window(run))
    ensures var w := Window(run);
            Failed(After(run)) == |Ids(w) - Answered(w)|
  {
    var w := Window(run);
    CountsAreCardinalities(w);
    Difference(Ids(w), Answered(w));
    FailedIff(run);
  }

  lemma Difference(a: set<int>, b: set<int>)
    requires b <= a
    ensures |b| <= |a| && |a - b| == |a| - |b|
  {
    assert a == (a - b) + b;
  }

  /** Answers that arrive after the reset for requests from before it break the count: every run that
      stands at 2^32 receives, followed by one receive and two late answers, reports 2^64 - 1 failures. */
  lemma LateAnswersWrap(run: seq<Call>, next: int, x: int, y: int)
    requires After(run).recv == 0x1_0000_0000
    ensures Failed(After(run + [Recv(next), Succ(x), Succ(y)])) == 0xFFFF_FFFF_FFFF_FFFF
  {
    assert run + [Recv(next), Succ(x), Succ(y)] == run + [Recv(next)] + [Succ(x)] + [Succ(y)];
    Snoc(run, Recv(next));
    Snoc(run + [Recv(next)], Succ(x));
    Snoc(run + [Recv(next)] + [Succ(x)], Succ(y));
  }

  /** Such a run: 2^32 requests without an answer, one more, and the answers to the first two. */
  lemma WrapHappens()
    ensures var run := seq(0x1_0000_0000, i => Recv(i));
            Failed(After(run + [Recv(0x1_0000_0000), Succ(0), Succ(1)])) == 0xFFFF_FFFF_FFFF_FFFF
  {
    hide After, Received;
    OnlyReceives(TWO_32);
    RecvClosedForm(seq(TWO_32, i => Recv(i)));
    LateAnswersWrap(seq(TWO_32, i => Recv(i)), TWO_32, 0, 1);
  }

  lemma {:induction false} OnlyReceives(n: nat)
    ensures Received(seq(n, i => Recv(i))) == n
  {
    if n > 0 {
      OnlyReceives(n - 1);
      var run := seq(n, i => Recv(i));
      assert run[..n - 1] == seq(n - 1, i => Recv(i));
    }
  }
}
