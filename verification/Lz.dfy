/**
  Decoding into an unbounded history. A command is a literal or a copy of earlier output; a copy cut short by the end
  of the caller's buffer stays pending and is resumed by the next call.
 */
module Lz {
  import opened Wrappers

  type Positive = n: nat | n > 0 witness 1

  datatype Command = Literal(value: byte) | Copy(offset: nat, count: Positive)

  datatype LzState<S> = LzState(source: S, pending: Option<(nat, Positive)>, history: seq<byte>)

  /** Reads the next command; it may depend on how much has been written so far. */
  type Reader<!S> = (S, nat) -> Option<(Command, S)>

  /** The byte d + 1 places back. */
  function Back(history: seq<byte>, d: nat): byte {
    if d < |history| then history[|history| - 1 - d] else 0
  }

  /** n bytes read from d + 1 places back, each appended before the next is read. */
  function CopyBytes(history: seq<byte>, d: nat, n: nat): (r: seq<byte>)
    ensures |r| == n
    decreases n
  {
    if n == 0 then []
    else
      var b := Back(history, d);
      [b] + CopyBytes(history + [b], d, n - 1)
  }

  /**
    Byte i of a copy is the byte d + 1 places before it in the extended history, even where the copy overlaps itself.
   */
  lemma {:induction false} CopyOverlapsItself(history: seq<byte>, d: nat, n: nat, i: nat)
    requires d < |history| && i < n
    ensures var x := CopyBytes(history, d, n); x[i] == (history + x)[|history| + i - (d + 1)]
    decreases n
  {
    var b := Back(history, d);
    var x, tail := CopyBytes(history, d, n), CopyBytes(history + [b], d, n - 1);
    assert history + x == (history + [b]) + tail;
    if i > 0 {
      CopyOverlapsItself(history + [b], d, n - 1, i - 1);
    }
  }

  /** A copy can be cut anywhere. */
  lemma {:induction false} CopySplits(history: seq<byte>, d: nat, i: nat, j: nat)
    ensures CopyBytes(history, d, i + j) ==
      CopyBytes(history, d, i) + CopyBytes(history + CopyBytes(history, d, i), d, j)
    decreases i
  {
    if i == 0 {
      assert history + CopyBytes(history, d, 0) == history;
    } else {
      var b := Back(history, d);
      var x := CopyBytes(history + [b], d, i - 1);
      CopySplits(history + [b], d, i - 1, j);
      assert history + ([b] + x) == (history + [b]) + x;
      assert [b] + (x + CopyBytes((history + [b]) + x, d, j)) == ([b] + x) + CopyBytes((history + [b]) + x, d, j);
    }
  }

  lemma CopySnoc(history: seq<byte>, d: nat, n: nat)
    ensures var x := CopyBytes(history, d, n);
      var b := Back(history + x, d);
      CopyBytes(history, d, n + 1) == x + [b] && history + (x + [b]) == (history + x) + [b]
  {
    var x := CopyBytes(history, d, n);
    CopySplits(history, d, n, 1);
    assert CopyBytes(history + x, d, 1) == [Back(history + x, d)];
  }

  /** What is left to copy after n bytes. */
  function Left(offset: nat, count: nat, n: nat): Option<(nat, Positive)> {
    if count <= n then None else Some((offset, count - n))
  }

  function Min(a: nat, b: nat): nat {
    if a < b then a else b
  }

  /** Copy as much of a pending copy as fits in n bytes. */
  function Resume<S>(st: LzState<S>, offset: nat, count: nat, n: nat): (seq<byte>, LzState<S>) {
    var x := CopyBytes(st.history, offset, Min(count, n));
    (x, LzState(st.source, Left(offset, count, n), st.history + x))
  }

  /** Put x in front of what was written. */
  function Prefixed<S>(x: seq<byte>, r: Option<(seq<byte>, LzState<S>)>): Option<(seq<byte>, LzState<S>)> {
    match r
    case None => None
    case Some((y, st)) => Some((x + y, st))
  }

  /** Fill n bytes, first from a pending copy, then from as many commands as it takes. */
  ghost function Fill<S>(read: Reader<S>, st: LzState<S>, n: nat): (r: Option<(seq<byte>, LzState<S>)>)
    decreases n, if st.pending.None? then 1 else 0
  {
    if n == 0 then Some(([], st))
    else match st.pending
      case Some((offset, count)) =>
        var (x, st1) := Resume(st, offset, count, n);
        Prefixed(x, Fill(read, st1, n - |x|))
      case None =>
        match read(st.source, |st.history|)
        case None => None
        case Some((Literal(b), source)) =>
          Prefixed([b], Fill(read, LzState(source, None, st.history + [b]), n - 1))
        case Some((Copy(offset, count), source)) =>
          Fill(read, LzState(source, Some((offset, count)), st.history), n)
  }

  /** Fill a bytes, then b more. */
  ghost function FillTwice<S>(read: Reader<S>, st: LzState<S>, a: nat, b: nat): Option<(seq<byte>, LzState<S>)> {
    match Fill(read, st, a)
    case None => None
    case Some((x, st1)) => Prefixed(x, Fill(read, st1, b))
  }

  /** Splitting the output is invisible: two calls do what one call for both sizes does. */
  lemma {:induction false} SplitIsInvisible<S>(read: Reader<S>, st: LzState<S>, a: nat, b: nat)
    ensures FillTwice(read, st, a, b) == Fill(read, st, a + b)
    decreases a, if st.pending.None? then 1 else 0
  {
    if a == 0 {
      NoPrefix(Fill(read, st, b));
    } else {
      match st.pending
      case Some((offset, count)) =>
        if count <= a {
          var (x, st1) := Resume(st, offset, count, a);
          SplitIsInvisible(read, st1, a - count, b);
          PrefixTwice(x, Fill(read, st1, a - count), read, b);
        } else {
          SplitPending(read, st, offset, count, a, b);
        }
      case None =>
        match read(st.source, |st.history|)
        case None =>
        case Some((Literal(v), source)) =>
          var st1 := LzState(source, None, st.history + [v]);
          SplitIsInvisible(read, st1, a - 1, b);
          PrefixTwice([v], Fill(read, st1, a - 1), read, b);
        case Some((Copy(offset, count), source)) =>
          SplitIsInvisible(read, LzState(source, Some((offset, count)), st.history), a, b);
    }
  }

  lemma NoPrefix<S>(r: Option<(seq<byte>, LzState<S>)>)
    ensures Prefixed([], r) == r
  {
    if r.Some? { assert [] + r.value.0 == r.value.0; }
  }

  /** Prefixing the first of two fills prefixes both. */
  lemma PrefixTwice<S>(x: seq<byte>, r: Option<(seq<byte>, LzState<S>)>, read: Reader<S>, b: nat)
    ensures r.Some? ==>
      Prefixed(x + r.value.0, Fill(read, r.value.1, b)) == Prefixed(x, Prefixed(r.value.0, Fill(read, r.value.1, b)))
  {
    if r.Some? && Fill(read, r.value.1, b).Some? {
      assert (x + r.value.0) + Fill(read, r.value.1, b).value.0 == x + (r.value.0 + Fill(read, r.value.1, b).value.0);
    }
  }

  /** A pending copy longer than the first part is resumed by the second. */
  lemma SplitPending<S>(read: Reader<S>, st: LzState<S>, offset: nat, count: Positive, a: nat, b: nat)
    requires st.pending == Some((offset, count)) && 0 < a < count
    ensures FillTwice(read, st, a, b) == Fill(read, st, a + b)
  {
    var (x, st1) := Resume(st, offset, count, a);
    assert Fill(read, st1, 0) == Some(([], st1));
    assert x + [] == x;
    assert Fill(read, st, a) == Some((x, st1));
    if b == 0 {
      assert Fill(read, st1, 0) == Some(([], st1));
    } else {
      var (y, st2) := Resume(st1, offset, count - a, b);
      var (z, st3) := Resume(st, offset, count, a + b);
      CopySplits(st.history, offset, a, Min(count - a, b));
      assert z == x + y && st3 == st2;
      var rest := Fill(read, st2, b - |y|);
      assert Fill(read, st1, b) == Prefixed(y, rest);
      assert Fill(read, st, a + b) == Prefixed(z, rest);
      if rest.Some? {
        assert (x + y) + rest.value.0 == x + (y + rest.value.0);
      }
    }
  }

  // ---- the plain decoder

  /** Carry out one whole command. */
  ghost function Perform(history: seq<byte>, c: Command): seq<byte> {
    match c
    case Literal(b) => history + [b]
    case Copy(offset, count) => history + CopyBytes(history, offset, count)
  }

  /** A copy appends as many bytes, each the one d + 1 places before it, where that many precede the copy. */
  lemma CopyIsPerformed(history: seq<byte>, d: nat, count: Positive, k: nat)
    requires d < |history| && k < count
    ensures var h := Perform(history, Copy(d, count));
      && |h| == |history| + count && history <= h && h[|history| + k] == h[|history| + k - (d + 1)]
  {
    CopyOverlapsItself(history, d, count, k);
  }

  /** Carry out commands one after the other. */
  ghost function PerformAll(history: seq<byte>, cs: seq<Command>): seq<byte>
    decreases |cs|
  {
    if cs == [] then history else PerformAll(Perform(history, cs[0]), cs[1..])
  }

  lemma {:induction false} PerformAppends(history: seq<byte>, a: seq<Command>, b: seq<Command>)
    ensures PerformAll(history, a + b) == PerformAll(PerformAll(history, a), b)
    decreases |a|
  {
    if a == [] {
      assert a + b == b;
    } else {
      assert (a + b)[1..] == a[1..] + b;
      PerformAppends(Perform(history, a[0]), a[1..], b);
    }
  }

  lemma NothingPerformed(history: seq<byte>)
    ensures PerformAll(history, []) == history
  {
  }

  /** Carry out m whole commands. */
  ghost function Execute<S>(read: Reader<S>, source: S, history: seq<byte>, m: nat): Option<(S, seq<byte>)>
    decreases m
  {
    if m == 0 then Some((source, history))
    else match read(source, |history|)
      case None => None
      case Some((c, next)) => Execute(read, next, Perform(history, c), m - 1)
  }

  lemma NothingExecuted<S>(read: Reader<S>, source: S, history: seq<byte>)
    ensures Execute(read, source, history, 0) == Some((source, history))
  {
  }

  lemma {:induction false} ExecuteSplits<S>(read: Reader<S>, source: S, history: seq<byte>, a: nat, b: nat)
    ensures Execute(read, source, history, a + b) ==
      match Execute(read, source, history, a)
      case None => None
      case Some((next, h)) => Execute(read, next, h, b)
    decreases a
  {
    if a > 0 && read(source, |history|).Some? {
      var (c, next) := read(source, |history|).value;
      ExecuteSplits(read, next, Perform(history, c), a - 1, b);
    }
  }

  /** A copy fills its bytes and leaves nothing pending. */
  lemma CopyFills<S>(read: Reader<S>, source: S, history: seq<byte>, next: S, offset: nat, count: Positive, n: nat)
    requires read(source, |history|) == Some((Copy(offset, count), next)) && count <= n
    ensures var x := CopyBytes(history, offset, count);
      Fill(read, LzState(source, None, history), n)
        == Prefixed(x, Fill(read, LzState(next, None, history + x), n - count))
  {
    var x, pending := CopyBytes(history, offset, count), LzState(next, Some((offset, count)), history);
    assert Resume(pending, offset, count, n) == (x, LzState(next, None, history + x));
    assert Fill(read, LzState(source, None, history), n) == Fill(read, pending, n);
  }

  lemma CutTwice(history: seq<byte>, x: seq<byte>, output: seq<byte>)
    requires history + x <= output
    ensures history <= output && output[|history|..] == x + output[|history + x|..]
  {
  }

  /** Conversely, a buffer of the size that whole commands write is filled by just these commands. */
  lemma {:induction false} ExecutionFills<S>(read: Reader<S>, source: S, history: seq<byte>, m: nat)
    requires Execute(read, source, history, m).Some?
    ensures var (next, output) := Execute(read, source, history, m).value;
      && history <= output
      && Fill(read, LzState(source, None, history), |output| - |history|)
           == Some((output[|history|..], LzState(next, None, output)))
    decreases m
  {
    if m == 0 {
      assert history[|history|..] == [];
    } else {
      var (c, next) := read(source, |history|).value;
      var output := Execute(read, source, history, m).value.1;
      ExecutionFills(read, next, Perform(history, c), m - 1);
      match c
      case Literal(b) =>
        CutTwice(history, [b], output);
      case Copy(offset, count) =>
        CutTwice(history, CopyBytes(history, offset, count), output);
        CopyFills(read, source, history, next, offset, count, |output| - |history|);
    }
  }

  /** The history once a pending copy is completed. */
  ghost function Completed<S>(st: LzState<S>): seq<byte> {
    match st.pending
    case None => st.history
    case Some((offset, count)) => st.history + CopyBytes(st.history, offset, count)
  }

  lemma ResumeKeepsCompleted<S>(st: LzState<S>, offset: nat, count: Positive, n: nat)
    requires st.pending == Some((offset, count))
    ensures Completed(Resume(st, offset, count, n).1) == Completed(st)
  {
    var k := Min(count, n);
    CopySplits(st.history, offset, k, count - k);
    var x := CopyBytes(st.history, offset, k);
    if k < count {
      var y := CopyBytes(st.history + x, offset, count - k);
      assert (st.history + x) + y == st.history + (x + y);
    } else {
      assert x + CopyBytes(st.history + x, offset, 0) == x;
    }
  }

  /**
    What fills a buffer is what whole commands write, cut to size: some number of whole commands lead from the
    completed history before to the completed history after, and the bytes filled are what the history grew by.
   */
  lemma {:induction false} FillIsExecution<S>(read: Reader<S>, st: LzState<S>, n: nat) returns (m: nat)
    requires Fill(read, st, n).Some?
    ensures var (x, st1) := Fill(read, st, n).value;
      && |x| == n && st1.history == st.history + x
      && Execute(read, st.source, Completed(st), m) == Some((st1.source, Completed(st1)))
    decreases n, if st.pending.None? then 1 else 0
  {
    if n == 0 {
      m := 0;
      assert st.history + [] == st.history;
    } else {
      match st.pending
      case Some((offset, count)) =>
        var (x, st1) := Resume(st, offset, count, n);
        ResumeKeepsCompleted(st, offset, count, n);
        m := FillIsExecution(read, st1, n - |x|);
        JoinHistory(st.history, x, Fill(read, st1, n - |x|).value.0);
      case None =>
        match read(st.source, |st.history|)
        case Some((Literal(b), source)) =>
          var st1 := LzState(source, None, st.history + [b]);
          var k := FillIsExecution(read, st1, n - 1);
          JoinHistory(st.history, [b], Fill(read, st1, n - 1).value.0);
          m := k + 1;
        case Some((Copy(offset, count), source)) =>
          var k := FillIsExecution(read, LzState(source, Some((offset, count)), st.history), n);
          m := k + 1;
    }
  }

  lemma JoinHistory(h: seq<byte>, x: seq<byte>, y: seq<byte>)
    ensures (h + x) + y == h + (x + y)
  {
  }

  // ---- filling a buffer step by step

  /** `done` has been written on the way from `total`'s start to state st, and n bytes are still to come. */
  ghost predicate OnTheWay<S>(read: Reader<S>, total: Option<(seq<byte>, LzState<S>)>, done: seq<byte>, st: LzState<S>,
                              n: nat) {
    Prefixed(done, Fill(read, st, n)) == total
  }

  lemma SetOut<S>(read: Reader<S>, st: LzState<S>, n: nat)
    ensures OnTheWay(read, Fill(read, st, n), [], st, n)
  {
    NoPrefix(Fill(read, st, n));
  }

  lemma Arrived<S>(read: Reader<S>, total: Option<(seq<byte>, LzState<S>)>, done: seq<byte>, st: LzState<S>)
    requires OnTheWay(read, total, done, st, 0)
    ensures total == Some((done, st))
  {
    assert done + [] == done;
  }

  lemma PrefixesJoin<S>(x: seq<byte>, y: seq<byte>, r: Option<(seq<byte>, LzState<S>)>)
    ensures Prefixed(x, Prefixed(y, r)) == Prefixed(x + y, r)
  {
    if r.Some? { assert x + (y + r.value.0) == (x + y) + r.value.0; }
  }

  lemma StepLiteral<S>(read: Reader<S>, total: Option<(seq<byte>, LzState<S>)>, done: seq<byte>, st: LzState<S>, n: nat,
                       b: byte, source: S)
    requires OnTheWay(read, total, done, st, n) && n > 0 && st.pending.None?
    requires read(st.source, |st.history|) == Some((Literal(b), source))
    ensures OnTheWay(read, total, done + [b], LzState(source, None, st.history + [b]), n - 1)
  {
    PrefixesJoin(done, [b], Fill(read, LzState(source, None, st.history + [b]), n - 1));
  }

  lemma StepCopy<S>(read: Reader<S>, total: Option<(seq<byte>, LzState<S>)>, done: seq<byte>, st: LzState<S>, n: nat,
                    offset: nat, count: Positive, source: S)
    requires OnTheWay(read, total, done, st, n) && n > 0 && st.pending.None?
    requires read(st.source, |st.history|) == Some((Copy(offset, count), source))
    ensures OnTheWay(read, total, done, LzState(source, Some((offset, count)), st.history), n)
  {
  }

  lemma StepResume<S>(read: Reader<S>, total: Option<(seq<byte>, LzState<S>)>, done: seq<byte>, st: LzState<S>, n: nat,
                      offset: nat, count: Positive)
    requires OnTheWay(read, total, done, st, n) && st.pending == Some((offset, count))
    ensures var r := Resume(st, offset, count, n); OnTheWay(read, total, done + r.0, r.1, n - Min(count, n))
  {
    var (x, st1) := Resume(st, offset, count, n);
    if n > 0 {
      PrefixesJoin(done, x, Fill(read, st1, n - |x|));
    } else {
      assert x == [] && done + x == done && st.history + x == st.history;
    }
  }

  lemma StepFails<S>(read: Reader<S>, total: Option<(seq<byte>, LzState<S>)>, done: seq<byte>, st: LzState<S>, n: nat)
    requires OnTheWay(read, total, done, st, n) && n > 0 && st.pending.None?
    requires read(st.source, |st.history|).None?
    ensures total.None?
  {
  }
}
