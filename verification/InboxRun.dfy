/**
 Every interleaving of the reader and the engine of cli/serve.cpp.
 */
module InboxRun {
  import opened JsonText
  import opened Inbox

  /** Between lines; on a cancel before and after its load of the counter; on a generate before its
      number; about to push an item; about to push the end mark; gone. */
  datatype Reader =
    | Idle | Loading | Storing(upto: nat) | Counting | Holding(item: Request, last: bool) | Ending | Gone

  datatype Engine = Waiting | Serving(item: Request) | Ended

  /** `at` lines of the input have been read; `popped` is the history of the engine. */
  datatype System = System(at: nat, reader: Reader, box: Box, engine: Engine, popped: seq<Request>)

  datatype Step =
    | ReadLine | EndOfInput | LoadCount | StoreMark | TakeNumber | PushItem | PushEof   // reader
    | PopItem | Finish                                                                   // engine

  const START: System := System(0, Idle, Box([], 0, 0), Waiting, [])

  predicate Enabled(input: seq<Bytes>, s: System, step: Step) {
    match step
    case ReadLine => s.reader == Idle && s.at < |input|
    case EndOfInput => s.reader == Idle && s.at >= |input|
    case LoadCount => s.reader == Loading
    case StoreMark => s.reader.Storing?
    case TakeNumber => s.reader == Counting && 0 < s.at <= |input|
    case PushItem => s.reader.Holding?
    case PushEof => s.reader == Ending
    case PopItem => s.engine == Waiting && s.box.q != []
    case Finish => s.engine.Serving?
  }

  /** What the reader does next with a line. */
  function Sorted(line: Bytes): Reader {
    match KindOf(line)
    case Blank => Idle
    case Cancel => Loading
    case Generate => Counting
    case Quit => Holding(Request(line, 0, false), true)
    case Other => Holding(Request(line, 0, false), false)
  }

  /** What the engine does with an item: it ends at the end mark and at a quit. */
  function Received(it: Request): Engine {
    if it.eof || KindOf(it.line) == Quit then Ended else Serving(it)
  }

  function Apply(input: seq<Bytes>, s: System, step: Step): System
    requires Enabled(input, s, step)
  {
    match step
    case ReadLine => s.(at := s.at + 1, reader := Sorted(input[s.at]))
    case EndOfInput => s.(reader := Ending)
    case LoadCount => s.(reader := Storing(s.box.generates))
    case StoreMark => s.(reader := Idle, box := s.box.(cancelUpto := s.reader.upto))
    case TakeNumber =>
      var n := s.box.generates + 1;
      s.(reader := Holding(Request(input[s.at - 1], n, false), false), box := s.box.(generates := n))
    case PushItem =>
      s.(reader := if s.reader.last then Ending else Idle, box := s.box.(q := s.box.q + [s.reader.item]))
    case PushEof => s.(reader := Gone, box := s.box.(q := s.box.q + [EOF]))
    case PopItem =>
      var it := s.box.q[0];
      s.(box := s.box.(q := s.box.q[1..]), popped := s.popped + [it], engine := Received(it))
    case Finish => s.(engine := Waiting)
  }

  // ---- the invariant ----

  predicate MidLine(r: Reader) { r.Loading? || r.Storing? || r.Counting? || r.Holding? }

  /** Lines whose effect is complete. */
  function Done(s: System): int { if MidLine(s.reader) then s.at - 1 else s.at }

  /** Where the reader stands with the line it is on. */
  ghost predicate OnLine(input: seq<Bytes>, s: System)
    requires 0 <= Done(s) <= s.at <= |input|
  {
    var done, read := input[..Done(s)], input[..s.at];
    match s.reader
    case Loading => KindOf(input[s.at - 1]) == Cancel && s.box.generates == Generates(done)
    case Storing(upto) => KindOf(input[s.at - 1]) == Cancel && s.box.generates == Generates(done) == upto
    case Counting => KindOf(input[s.at - 1]) == Generate && s.box.generates == Generates(done)
    case Holding(it, last) =>
      && s.box.generates == Generates(read) && Mark(read) == Mark(done)
      && Items(read) == Items(done) + [it]
      && (last <==> KindOf(input[s.at - 1]) == Quit)
    case _ => s.box.generates == Generates(done)
  }

  /** How far the reader will hear. */
  ghost predicate Hears(input: seq<Bytes>, s: System)
    requires s.at <= |input|
  {
    if s.reader == Ending || s.reader == Gone || (s.reader.Holding? && s.reader.last)
    then Heard(input) == s.at
    else Heard(input) == s.at + Heard(input[s.at..])
  }

  ghost predicate Inv(input: seq<Bytes>, s: System) {
    && 0 <= Done(s) <= s.at <= |input|
    && OnLine(input, s)
    && Hears(input, s)
    && s.box.cancelUpto == Mark(input[..Done(s)])
    && s.popped + s.box.q == Items(input[..Done(s)]) + (if s.reader == Gone then [EOF] else [])
    && (s.engine == Ended <==> s.popped != [] && Received(s.popped[|s.popped| - 1]) == Ended)
  }

  lemma StartInv(input: seq<Bytes>)
    ensures Inv(input, START)
  {
    assert input[0..] == input && input[..0] == [];
  }

  /** One more line. */
  lemma Longer(input: seq<Bytes>, n: nat)
    requires n < |input|
    ensures input[..n + 1][..n] == input[..n] && input[..n + 1][n] == input[n] && |input[..n + 1]| == n + 1
    ensures input[n..][1..] == input[n + 1..] && input[n..][0] == input[n]
  {
  }

  /** What line n adds. */
  lemma LineAdds(input: seq<Bytes>, n: nat)
    requires n < |input|
    ensures var kind, a, b := KindOf(input[n]), input[..n], input[..n + 1];
            && Generates(b) == Generates(a) + (if kind == Generate then 1 else 0)
            && Mark(b) == (if kind == Cancel then Generates(a) else Mark(a))
            && Items(b) == match kind
                           case Blank => Items(a)
                           case Cancel => Items(a)
                           case Generate => Items(a) + [Request(input[n], Generates(a) + 1, false)]
                           case _ => Items(a) + [Request(input[n], 0, false)]
  {
    hide KindOf;
    Longer(input, n);
  }

  lemma ReadKeeps(input: seq<Bytes>, s: System)
    requires Inv(input, s) && Enabled(input, s, ReadLine)
    ensures Inv(input, Apply(input, s, ReadLine))
  {
    hide KindOf, Received, Items, Generates, Mark;
    Longer(input, s.at);
    LineAdds(input, s.at);
  }

  lemma LineKeeps(input: seq<Bytes>, s: System, step: Step)
    requires Inv(input, s) && Enabled(input, s, step)
    requires step.LoadCount? || step.StoreMark? || step.TakeNumber?
    ensures Inv(input, Apply(input, s, step))
  {
    hide KindOf, Received, Heard, Items, Generates, Mark;
    LineAdds(input, s.at - 1);
  }

  lemma PushKeeps(input: seq<Bytes>, s: System)
    requires Inv(input, s) && Enabled(input, s, PushItem)
    ensures Inv(input, Apply(input, s, PushItem))
  {
    hide KindOf, Received, Heard, Items, Generates, Mark;
    assert s.popped + (s.box.q + [s.reader.item]) == (s.popped + s.box.q) + [s.reader.item];
  }

  lemma EndKeeps(input: seq<Bytes>, s: System, step: Step)
    requires Inv(input, s) && Enabled(input, s, step) && (step.EndOfInput? || step.PushEof?)
    ensures Inv(input, Apply(input, s, step))
  {
    hide KindOf, Received, Items, Generates, Mark;
    if step.PushEof? { assert s.popped + (s.box.q + [EOF]) == (s.popped + s.box.q) + [EOF]; }
  }

  lemma EngineKeeps(input: seq<Bytes>, s: System, step: Step)
    requires Inv(input, s) && Enabled(input, s, step) && (step.PopItem? || step.Finish?)
    ensures Inv(input, Apply(input, s, step))
  {
    hide KindOf, Items, Generates, Mark, Heard;
    if step.PopItem? { assert s.popped + s.box.q == (s.popped + [s.box.q[0]]) + s.box.q[1..]; }
  }

  lemma StepKeeps(input: seq<Bytes>, s: System, step: Step)
    requires Inv(input, s) && Enabled(input, s, step)
    ensures Inv(input, Apply(input, s, step))
  {
    hide Inv, Apply;
    match step
    case ReadLine => ReadKeeps(input, s);
    case EndOfInput => EndKeeps(input, s, step);
    case PushEof => EndKeeps(input, s, step);
    case PushItem => PushKeeps(input, s);
    case PopItem => EngineKeeps(input, s, step);
    case Finish => EngineKeeps(input, s, step);
    case _ => LineKeeps(input, s, step);
  }

  // ---- runs ----

  datatype Outcome = Stuck | At(s: System)

  ghost function Run(input: seq<Bytes>, s: System, steps: seq<Step>): (r: Outcome)
    requires Inv(input, s)
    ensures r.At? ==> Inv(input, r.s)
    decreases |steps|
  {
    if steps == [] then At(s)
    else if !Enabled(input, s, steps[0]) then Stuck
    else
      StepKeeps(input, s, steps[0]);
      Run(input, Apply(input, s, steps[0]), steps[1..])
  }

  ghost predicate Reachable(input: seq<Bytes>, s: System) {
    StartInv(input);
    exists steps :: Run(input, START, steps) == At(s)
  }

  // ---- numbers ----

  /** The numbers of the generates among some items. */
  function Numbers(items: seq<Request>): seq<nat> {
    if items == [] then []
    else Numbers(items[..|items| - 1]) + (if items[|items| - 1].num > 0 then [items[|items| - 1].num] else [])
  }

  /** 1, 2, ..., n. */
  function UpTo(n: nat): (s: seq<nat>)
    ensures |s| == n
  {
    if n == 0 then [] else UpTo(n - 1) + [n]
  }

  lemma NumbersSnoc(items: seq<Request>, it: Request)
    ensures Numbers(items + [it]) == Numbers(items) + (if it.num > 0 then [it.num] else [])
  {
    assert (items + [it])[..|items|] == items;
  }

  lemma {:induction false} ItemsNumbered(lines: seq<Bytes>)
    ensures Numbers(Items(lines)) == UpTo(Generates(lines))
  {
    hide KindOf;
    if lines != [] {
      var before, line := lines[..|lines| - 1], lines[|lines| - 1];
      ItemsNumbered(before);
      NumbersSnoc(Items(before), Request(line, Generates(before) + 1, false));
      NumbersSnoc(Items(before), Request(line, 0, false));
    }
  }

  lemma {:induction false} NumbersPrefix(items: seq<Request>, k: nat, n: nat)
    requires k <= |items| && Numbers(items) == UpTo(n)
    ensures |Numbers(items[..k])| <= n && Numbers(items[..k]) == UpTo(|Numbers(items[..k])|)
    decreases |items|
  {
    if k < |items| {
      var before := items[..|items| - 1];
      assert before[..k] == items[..k];
      if items[|items| - 1].num > 0 {
        assert Numbers(before) == Numbers(items)[..n - 1] == UpTo(n - 1);
        NumbersPrefix(before, k, n - 1);
      } else {
        NumbersPrefix(before, k, n);
      }
    } else {
      assert items[..k] == items;
    }
  }

  /** Every generate among the items carries a number, and nothing else does. */
  lemma {:induction false} ItemsOfLines(lines: seq<Bytes>, k: nat)
    requires k < |Items(lines)|
    ensures var it := Items(lines)[k]; !it.eof && (it.num > 0 <==> KindOf(it.line) == Generate)
    ensures Items(lines)[k].num > 0 ==>
              exists i :: 0 <= i < |lines| && lines[i] == Items(lines)[k].line && KindOf(lines[i]) == Generate
                          && Generates(lines[..i]) + 1 == Items(lines)[k].num
  {
    hide KindOf;
    var n := |lines| - 1;
    if k < |Items(lines[..n])| {
      ItemsOfLines(lines[..n], k);
      if Items(lines)[k].num > 0 {
        var i :| 0 <= i < n && lines[i] == Items(lines)[k].line && KindOf(lines[i]) == Generate
                 && Generates(lines[..n][..i]) + 1 == Items(lines)[k].num;
        assert lines[..n][..i] == lines[..i];
      }
    }
  }

  /** Popped requests are the read ones in order, none lost and none twice, and their generates
      are numbered 1, 2, 3, ... */
  lemma InOrder(input: seq<Bytes>, s: System)
    requires Reachable(input, s)
    ensures s.popped <= Items(input[..Heard(input)]) + [EOF]
    ensures Numbers(s.popped) == UpTo(|Numbers(s.popped)|)
  {
    StartInv(input);
    hide Run, KindOf, Received, Numbers, UpTo;
    var m, h := Done(s), Heard(input);
    var all := Items(input[..m]);
    ItemsNumbered(input[..m]);
    NumbersSnoc(all, EOF);
    var seen := s.popped + s.box.q;
    assert all + [] == all && Numbers(all) + [] == Numbers(all);
    NumbersPrefix(seen, |s.popped|, Generates(input[..m]));
    assert seen[..|s.popped|] == s.popped;
    ItemsGrow(input, m, h);
  }

  lemma {:induction false} ItemsGrow(input: seq<Bytes>, m: nat, n: nat)
    requires m <= n <= |input|
    ensures Items(input[..m]) <= Items(input[..n])
    decreases n
  {
    hide KindOf;
    if m < n {
      ItemsGrow(input, m, n - 1);
      assert input[..n][..n - 1] == input[..n - 1];
    }
  }

  // ---- cancels ----

  /** The test of the generate path. */
  predicate Cancelled(s: System, num: nat) { s.box.cancelUpto >= num }

  /** The mark and the counter only grow, and the mark stays behind the counter. */
  lemma MarksGrow(input: seq<Bytes>, s: System, step: Step)
    requires Inv(input, s) && Enabled(input, s, step)
    ensures var t := Apply(input, s, step);
            s.box.cancelUpto <= t.box.cancelUpto <= t.box.generates && s.box.generates <= t.box.generates
  {
    StepKeeps(input, s, step);
    hide KindOf, Received, Items, Generates, Heard;
  }

  /** A cancelled generate stays cancelled, whatever happens next. */
  lemma {:induction false} StaysCancelled(input: seq<Bytes>, s: System, steps: seq<Step>, t: System)
    requires Inv(input, s) && Run(input, s, steps) == At(t)
    ensures forall num: nat :: Cancelled(s, num) ==> Cancelled(t, num)
    decreases |steps|
  {
    hide Inv, Apply;
    if steps != [] {
      MarksGrow(input, s, steps[0]);
      StepKeeps(input, s, steps[0]);
      StaysCancelled(input, Apply(input, s, steps[0]), steps[1..], t);
    }
  }

  ghost predicate CancelBetween(input: seq<Bytes>, i: nat, n: nat)
    requires n <= |input|
  {
    exists j :: i < j < n && KindOf(input[j]) == Cancel
  }

  lemma {:induction false} GeneratesGrow(input: seq<Bytes>, m: nat, n: nat)
    requires m <= n <= |input|
    ensures Generates(input[..m]) <= Generates(input[..n])
    ensures m < n && KindOf(input[m]) == Generate ==> Generates(input[..m]) < Generates(input[..n])
    decreases n
  {
    hide KindOf;
    if m < n {
      GeneratesGrow(input, m, n - 1);
      assert input[..n][..n - 1] == input[..n - 1];
    }
  }

  /** The mark passes a generate exactly when a cancel came after it. */
  lemma {:induction false} MarkCovers(input: seq<Bytes>, i: nat, n: nat)
    requires i < |input| && n <= |input| && KindOf(input[i]) == Generate
    ensures Mark(input[..n]) > Generates(input[..i]) <==> CancelBetween(input, i, n)
    decreases n
  {
    hide KindOf;
    if n > 0 {
      Longer(input, n - 1);
      MarkCovers(input, i, n - 1);
      if KindOf(input[n - 1]) == Cancel {
        if i < n - 1 { GeneratesGrow(input, i, n - 1); } else { GeneratesGrow(input, n - 1, i); }
      } else {
        assert CancelBetween(input, i, n) <==> CancelBetween(input, i, n - 1);
      }
    }
  }

  /** In every reachable state the generate on line i is cancelled exactly when a cancel line behind
      it has been carried out. */
  lemma CancelledExactly(input: seq<Bytes>, s: System, i: nat)
    requires Reachable(input, s) && i < |input| && KindOf(input[i]) == Generate
    ensures 0 <= Done(s) <= |input|
    ensures Cancelled(s, Generates(input[..i]) + 1) <==> CancelBetween(input, i, Done(s))
  {
    StartInv(input);
    hide Run, KindOf, Received, Items, Heard;
    MarkCovers(input, i, Done(s));
  }

  /** A popped generate is a line of the input, under the number the cancel test compares. */
  lemma PoppedLine(input: seq<Bytes>, s: System, it: Request) returns (i: nat)
    requires Reachable(input, s) && it in s.popped && it.num > 0
    ensures i < |input| && input[i] == it.line && KindOf(input[i]) == Generate && it.num == Generates(input[..i]) + 1
    ensures 0 <= Done(s) <= |input|
    ensures Cancelled(s, it.num) <==> CancelBetween(input, i, Done(s))
  {
    StartInv(input);
    hide Run, KindOf, Received, Heard;
    var lines := input[..Done(s)];
    var k :| 0 <= k < |s.popped| && s.popped[k] == it;
    assert it == (s.popped + s.box.q)[k];
    ItemsOfLines(lines, k);
    i :| 0 <= i < |lines| && lines[i] == it.line && KindOf(lines[i]) == Generate && Generates(lines[..i]) + 1 == it.num;
    assert lines[..i] == input[..i];
    CancelledExactly(input, s, i);
  }

  // ---- the end ----

  /** Before the last heard line there is no quit. */
  lemma {:induction false} NoQuitBefore(input: seq<Bytes>, i: nat)
    requires i + 1 < Heard(input)
    ensures KindOf(input[i]) != Quit
  {
    hide KindOf;
    if i > 0 { NoQuitBefore(input[1..], i - 1); }
  }

  lemma {:induction false} QuitItem(input: seq<Bytes>, n: nat, k: nat)
    requires n <= Heard(input) && k < |Items(input[..n])| && KindOf(Items(input[..n])[k].line) == Quit
    ensures k == |Items(input[..n])| - 1 && n > 0 && Heard(input) == n
  {
    hide KindOf;
    assert n > 0;
    Longer(input, n - 1);
    if k < |Items(input[..n - 1])| {
      QuitItem(input, n - 1, k);
    } else if n < Heard(input) {
      NoQuitBefore(input, n - 1);
    }
  }

  /** When the engine stops, it has popped every request up to the first quit, or up to the end. */
  lemma NoneLost(input: seq<Bytes>, s: System)
    requires Reachable(input, s) && s.engine == Ended
    ensures var all := Items(input[..Heard(input)]); s.popped == all || s.popped == all + [EOF]
  {
    StartInv(input);
    hide Run, KindOf, Generates, Mark;
    var m, k := Done(s), |s.popped| - 1;
    var it := s.popped[k];
    assert it == (s.popped + s.box.q)[k];
    if k < |Items(input[..m])| {
      ItemsOfLines(input[..m], k);
      assert it == Items(input[..m])[k];
      QuitItem(input, m, k);
      assert s.popped == (s.popped + s.box.q)[..k + 1] == Items(input[..m]);
    } else {
      assert s.reader == Gone;
      assert s.popped + s.box.q == Items(input[..m]) + [EOF];
      assert s.box.q == [];
      assert s.popped + [] == s.popped;
    }
  }
}
