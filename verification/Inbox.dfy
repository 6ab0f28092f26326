/**
 The request inbox of cli/serve.cpp: a reader thread turns the lines of standard input into
 queued items and cancel marks; the engine thread pops items and asks whether they were cancelled.
 */
module Inbox {
  import opened JsonText

  // ---- lines ----

  const OP: Bytes := [0x6F, 0x70]
  const GENERATE: Bytes := [0x67, 0x65, 0x6E, 0x65, 0x72, 0x61, 0x74, 0x65]
  const CANCEL: Bytes := [0x63, 0x61, 0x6E, 0x63, 0x65, 0x6C]
  const QUIT: Bytes := [0x71, 0x75, 0x69, 0x74]

  datatype Kind = Blank | Cancel | Generate | Quit | Other

  /** The "op" member of a JSON object; empty for anything else. */
  function OpOf(line: Bytes): Bytes {
    match ParseDocument(line)
    case Ok(Obj(members), _) => if OP in members && members[OP].Str? then members[OP].s else []
    case _ => []
  }

  function KindOf(line: Bytes): Kind {
    if forall i :: 0 <= i < |line| ==> line[i] == 0x20 || line[i] == 0x09 then Blank
    else if OpOf(line) == CANCEL then Cancel
    else if OpOf(line) == GENERATE then Generate
    else if OpOf(line) == QUIT then Quit
    else Other
  }

  /** A queued request; `num` is a generate's number, zero for every other request. */
  datatype Request = Request(line: Bytes, num: nat, eof: bool)

  const EOF: Request := Request([], 0, true)

  // ---- what a sequence of lines amounts to ----

  function Generates(lines: seq<Bytes>): nat {
    if lines == [] then 0
    else Generates(lines[..|lines| - 1]) + (if KindOf(lines[|lines| - 1]) == Generate then 1 else 0)
  }

  /** The items queued for them. */
  function Items(lines: seq<Bytes>): seq<Request> {
    if lines == [] then []
    else
      var before, line := lines[..|lines| - 1], lines[|lines| - 1];
      match KindOf(line)
      case Blank => Items(before)
      case Cancel => Items(before)
      case Generate => Items(before) + [Request(line, Generates(before) + 1, false)]
      case _ => Items(before) + [Request(line, 0, false)]
  }

  /** How many generates came before the last cancel. */
  function Mark(lines: seq<Bytes>): (n: nat)
    ensures n <= Generates(lines)
  {
    if lines == [] then 0
    else if KindOf(lines[|lines| - 1]) == Cancel then Generates(lines[..|lines| - 1])
    else Mark(lines[..|lines| - 1])
  }

  /** What the reader sees of its input: everything up to the first quit. */
  function Heard(input: seq<Bytes>): (n: nat)
    ensures n <= |input|
  {
    if input == [] then 0 else if KindOf(input[0]) == Quit then 1 else 1 + Heard(input[1..])
  }

  // ---- the shared object ----

  /** The queue and the two atomics. */
  datatype Box = Box(q: seq<Request>, generates: nat, cancelUpto: nat)

  class Inbox {
    var q: seq<Request>
    var generatesRead: nat
    var cancelUpto: nat

    ghost function View(): Box
      reads this
    {
      Box(q, generatesRead, cancelUpto)
    }

    constructor ()
      ensures View() == Box([], 0, 0)
    {
      q, generatesRead, cancelUpto := [], 0, 0;
    }

    method Push(it: Request)
      modifies this
      ensures View() == old(View()).(q := old(q) + [it])
    {
      q := q + [it];
    }

    method Pop() returns (it: Request)
      requires q != []
      modifies this
      ensures [it] + q == old(q) && View() == old(View()).(q := q)
    {
      it := q[0];
      q := q[1..];
    }

    /** The reader's loop, with no engine beside it. */
    method Run(input: seq<Bytes>)
      requires View() == Box([], 0, 0)
      modifies this
      ensures var lines := input[..Heard(input)];
              View() == Box(Items(lines) + [EOF], Generates(lines), Mark(lines))
    {
      hide KindOf;
      var i := 0;
      assert input[..0] == [] && input[0..] == input;
      while i < |input|
        invariant 0 <= i <= |input|
        invariant View() == Box(Items(input[..i]), Generates(input[..i]), Mark(input[..i]))
        invariant Heard(input) == i + Heard(input[i..])
      {
        var line, kind := input[i], KindOf(input[i]);
        assert input[..i + 1][..i] == input[..i] && input[i..][1..] == input[i + 1..];
        i := i + 1;
        if kind == Blank { continue; }
        if kind == Cancel {
          cancelUpto := generatesRead;
          continue;
        }
        var num := 0;
        if kind == Generate {
          generatesRead := generatesRead + 1;
          num := generatesRead;
        }
        Push(Request(line, num, false));
        if kind == Quit { break; }
      }
      Push(EOF);
    }
  }
}
