/** The first stack page of a process: the argument vector and the strings it points to. */
module ArgStack {
  import opened Machine
  import opened Results

  const UMEM_END_VMA := 0x1_0000_0000
  const WORD_SIZE := 8

  /** An argument: its bytes before the terminating zero. */
  type Arg = s: seq<Byte> | forall i :: 0 <= i < |s| ==> s[i] != 0

  // ---------------------------------------------------------------- what a process reads from its stack

  /** The little-endian 64-bit word at offset `off` of the page. */
  function Word(page: seq<Byte>, off: nat): nat
    requires off + 8 <= |page|
  {
    page[off] as int + 0x100 * (page[off + 1] as int) + 0x1_0000 * (page[off + 2] as int) + 0x100_0000 * (page[off + 3] as int)
    + 0x1_0000_0000 * (page[off + 4] as int) + 0x100_0000_0000 * (page[off + 5] as int)
    + 0x1_0000_0000_0000 * (page[off + 6] as int) + 0x100_0000_0000_0000 * (page[off + 7] as int)
  }

  /** The string at offset `off`, up to its terminating zero, if there is one on the page. */
  function StringAt(page: seq<Byte>, off: nat): Option<seq<Byte>>
    requires off <= |page|
    decreases |page| - off
  {
    if off == |page| then None
    else if page[off] == 0 then Some([])
    else
      match StringAt(page, off + 1)
      case None => None
      case Some(rest) => Some([page[off]] + rest)
  }

  /** The place on the page of a user address, if it is on the stack page. */
  function OnPage(address: nat): Option<nat> {
    if UMEM_END_VMA - PAGE_SIZE <= address < UMEM_END_VMA then Some(address - (UMEM_END_VMA - PAGE_SIZE)) else None
  }

  /** `argv[i]` as a process finds it at user address `argv`. */
  function ReadArg(page: seq<Byte>, argv: nat, i: nat): Option<seq<Byte>>
    requires |page| == PAGE_SIZE
  {
    match OnPage(argv + WORD_SIZE * i)
    case None => None
    case Some(off) =>
      if off + WORD_SIZE > PAGE_SIZE then None
      else
        match OnPage(Word(page, off))
        case None => None
        case Some(at) => StringAt(page, at)
  }

  // ---------------------------------------------------------------- sizes

  /** Bytes that the strings take, each with its terminating zero. */
  function Strings(argv: seq<Arg>): nat {
    if argv == [] then 0 else Strings(argv[..|argv| - 1]) + |argv[|argv| - 1]| + 1
  }

  function RoundUp16(n: nat): nat {
    (n + 15) / 16 * 16
  }

  /** What build_stack needs for the vector and the strings. */
  function Needed(argv: seq<Arg>): nat {
    WORD_SIZE * (|argv| + 1) + Strings(argv)
  }

  lemma {:induction false} StringsGrow(argv: seq<Arg>, i: nat)
    requires i <= |argv|
    ensures Strings(argv[..i]) <= Strings(argv)
    decreases |argv|
  {
    if i < |argv| {
      assert argv[..|argv| - 1][..i] == argv[..i];
      StringsGrow(argv[..|argv| - 1], i);
    } else {
      assert argv[..i] == argv;
    }
  }

  lemma StringsNext(argv: seq<Arg>, i: nat)
    requires i < |argv|
    ensures Strings(argv[..i + 1]) == Strings(argv[..i]) + |argv[i]| + 1
  {
    assert argv[..i + 1][..i] == argv[..i];
  }

  // ---------------------------------------------------------------- one argument on the page

  /** Where string `i` goes, for a vector at offset `base`. */
  function StringPlace(argv: seq<Arg>, base: nat, i: nat): nat
    requires i <= |argv|
  {
    base + WORD_SIZE * (|argv| + 1) + Strings(argv[..i])
  }

  /** Argument `i` is in place: its pointer in the vector, and its string with the terminating zero. */
  predicate Placed(page: seq<Byte>, argv: seq<Arg>, base: nat, i: nat)
    requires i < |argv| && base + Needed(argv) <= PAGE_SIZE && |page| == PAGE_SIZE
    requires StringPlace(argv, base, i) + |argv[i]| < PAGE_SIZE
  {
    var at := StringPlace(argv, base, i);
    && Word(page, base + WORD_SIZE * i) == UMEM_END_VMA - PAGE_SIZE + at
    && page[at..at + |argv[i]|] == argv[i] && page[at + |argv[i]|] == 0
  }

  lemma PlaceFits(argv: seq<Arg>, base: nat, i: nat)
    requires i < |argv| && base + Needed(argv) <= PAGE_SIZE
    ensures StringPlace(argv, base, i) + |argv[i]| + 1 == StringPlace(argv, base, i + 1) <= PAGE_SIZE
    ensures base + WORD_SIZE * (|argv| + 1) <= StringPlace(argv, base, i)
  {
    StringsNext(argv, i);
    StringsGrow(argv, i + 1);
  }

  lemma {:induction false} PlacesOrdered(argv: seq<Arg>, base: nat, i: nat, j: nat)
    requires i <= j <= |argv|
    ensures StringPlace(argv, base, i) <= StringPlace(argv, base, j)
  {
    assert argv[..j][..i] == argv[..i];
    StringsGrow(argv[..j], i);
  }

  lemma {:induction false} StringAtIs(page: seq<Byte>, off: nat, s: Arg)
    requires off + |s| < |page| && page[off..off + |s|] == s && page[off + |s|] == 0
    ensures StringAt(page, off) == Some(s)
    decreases |s|
  {
    if s != [] {
      assert page[off] == s[0];
      assert page[off + 1..off + 1 + |s[1..]|] == page[off..off + |s|][1..];
      StringAtIs(page, off + 1, s[1..]);
      assert [s[0]] + s[1..] == s;
    }
  }

  /** A process reads an argument in place. */
  lemma PlacedIsRead(page: seq<Byte>, argv: seq<Arg>, base: nat, i: nat)
    requires i < |argv| && base + Needed(argv) <= PAGE_SIZE && |page| == PAGE_SIZE
    requires StringPlace(argv, base, i) + |argv[i]| < PAGE_SIZE && Placed(page, argv, base, i)
    ensures ReadArg(page, UMEM_END_VMA - PAGE_SIZE + base, i) == Some(argv[i])
  {
    StringAtIs(page, StringPlace(argv, base, i), argv[i]);
  }

  // ---------------------------------------------------------------- building the page

  /** A 64-bit store. */
  method WriteWord(stack: array<Byte>, off: nat, v: nat)
    requires off + 8 <= stack.Length && v < 0x1_0000_0000_0000_0000
    modifies stack
    ensures Word(stack[..], off) == v
    ensures forall k :: 0 <= k < stack.Length && !(off <= k < off + 8) ==> stack[k] == old(stack[k])
  {
    var q1 := v / 0x100;
    var q2 := q1 / 0x100;
    var q3 := q2 / 0x100;
    var q4 := q3 / 0x100;
    var q5 := q4 / 0x100;
    var q6 := q5 / 0x100;
    var q7 := q6 / 0x100;
    stack[off], stack[off + 1], stack[off + 2], stack[off + 3] := v % 0x100, q1 % 0x100, q2 % 0x100, q3 % 0x100;
    stack[off + 4], stack[off + 5], stack[off + 6], stack[off + 7] := q4 % 0x100, q5 % 0x100, q6 % 0x100, q7;
  }

  /** memcpy of a string with its terminating zero. */
  method WriteString(stack: array<Byte>, at: nat, s: Arg)
    requires at + |s| < stack.Length
    modifies stack
    ensures stack[at..at + |s|] == s && stack[at + |s|] == 0
    ensures forall k :: 0 <= k < stack.Length && !(at <= k <= at + |s|) ==> stack[k] == old(stack[k])
  {
    for k := 0 to |s|
      invariant stack[at..at + k] == s[..k]
      invariant forall j :: 0 <= j < stack.Length && !(at <= j < at + k) ==> stack[j] == old(stack[j])
    {
      stack[at + k] := s[k];
    }
    stack[at + |s|] := 0;
  }

  /** The sizing loop of build_stack. */
  method StackSize(argc: int, argv: seq<Arg>) returns (r: Result<nat>)
    requires -0x8000_0000 <= argc < 0x8000_0000 && (argc >= 0 ==> |argv| == argc)
    ensures r.Ok? <==> 0 <= argc && Needed(argv) <= PAGE_SIZE
    ensures if r.Ok? then r.value == Needed(argv) else r == Err(ENOMEM)
  {
    var huge := if argc < 0 then argc + 0x1_0000_0000_0000_0000 else argc;
    if PAGE_SIZE / WORD_SIZE - 1 < huge {
      return Err(ENOMEM);
    }
    var stksz := (argc + 1) * WORD_SIZE;
    for i := 0 to argc
      invariant stksz == WORD_SIZE * (argc + 1) + Strings(argv[..i]) <= PAGE_SIZE
    {
      var argsz := |argv[i]| + 1;
      StringsNext(argv, i);
      StringsGrow(argv, i + 1);
      if PAGE_SIZE - stksz < argsz {
        return Err(ENOMEM);
      }
      stksz := stksz + argsz;
    }
    assert argv[..argc] == argv;
    r := Ok(stksz);
  }

  /** build_stack. When the vector and the strings fit the page, the process that starts with `argv` at the address
      returned reads back its arguments and the final null pointer; the address is a multiple of 16 on the page. */
  method BuildStack(stack: array<Byte>, argc: int, argv: seq<Arg>) returns (r: Result<nat>)
    requires stack.Length == PAGE_SIZE && -0x8000_0000 <= argc < 0x8000_0000 && (argc >= 0 ==> |argv| == argc)
    modifies stack
    ensures r.Ok? <==> 0 <= argc && Needed(argv) <= PAGE_SIZE
    ensures r.Err? ==> r == Err(ENOMEM) && stack[..] == old(stack[..])
    ensures r.Ok? ==>
      && r.value == RoundUp16(Needed(argv)) <= PAGE_SIZE && (UMEM_END_VMA - r.value) % 16 == 0
      && (forall i: nat :: i < |argv| ==> ReadArg(stack[..], UMEM_END_VMA - r.value, i) == Some(argv[i]))
      && Word(stack[..], PAGE_SIZE - r.value + WORD_SIZE * |argv|) == 0
      && stack[..PAGE_SIZE - r.value] == old(stack[..PAGE_SIZE - r.value])
  {
    hide ReadArg, Placed, StringPlace, Needed, Word;
    var size := StackSize(argc, argv);
    if size.Err? {
      return size;
    }
    RoundUpFits(size.value);
    var stksz := (size.value + 15) / 16 * 16;
    var base := PAGE_SIZE - stksz;
    CopyArgs(stack, argv, base);
    forall i: nat | i < |argv| ensures ReadArg(stack[..], UMEM_END_VMA - stksz, i) == Some(argv[i]) {
      PlaceFits(argv, base, i);
      assert Placed(stack[..], argv, base, i);
      PlacedIsRead(stack[..], argv, base, i);
    }
    r := Ok(stksz);
  }

  /** The copying loop of build_stack. */
  method CopyArgs(stack: array<Byte>, argv: seq<Arg>, base: nat)
    requires stack.Length == PAGE_SIZE && base + Needed(argv) <= PAGE_SIZE
    modifies stack
    ensures forall i: nat :: i < |argv| ==> StringPlace(argv, base, i) + |argv[i]| < PAGE_SIZE && Placed(stack[..], argv, base, i)
    ensures Word(stack[..], base + WORD_SIZE * |argv|) == 0
    ensures stack[..base] == old(stack[..base])
  {
    hide Placed, StringPlace, Word;
    PlaceStart(argv, base);
    var p := base + WORD_SIZE * (|argv| + 1);
    for i := 0 to |argv|
      invariant p == StringPlace(argv, base, i) && stack[..base] == old(stack[..base])
      invariant forall j: nat :: j < i ==> StringPlace(argv, base, j) + |argv[j]| < PAGE_SIZE && Placed(stack[..], argv, base, j)
    {
      ghost var before := stack[..];
      PlaceFits(argv, base, i);
      WriteWord(stack, base + WORD_SIZE * i, UMEM_END_VMA - PAGE_SIZE + p);
      ghost var mid := stack[..];
      WriteString(stack, p, argv[i]);
      PlacedNow(mid, stack[..], argv, base, i);
      forall j: nat | j < i ensures Placed(stack[..], argv, base, j) {
        PlacedStays(before, stack[..], argv, base, i, j);
      }
      p := p + |argv[i]| + 1;
    }
    ghost var last := stack[..];
    WriteWord(stack, base + WORD_SIZE * |argv|, 0);
    forall j: nat | j < |argv| ensures Placed(stack[..], argv, base, j) {
      PlacedEnd(last, stack[..], argv, base, j);
    }
  }

  lemma RoundUpFits(n: nat)
    requires n <= PAGE_SIZE
    ensures n <= RoundUp16(n) <= PAGE_SIZE && RoundUp16(n) % 16 == 0 && (UMEM_END_VMA - RoundUp16(n)) % 16 == 0
  {
    var q := (n + 15) / 16;
    assert UMEM_END_VMA - 16 * q == 16 * (UMEM_END_VMA / 16 - q);
  }

  lemma PlaceStart(argv: seq<Arg>, base: nat)
    ensures StringPlace(argv, base, 0) == base + WORD_SIZE * (|argv| + 1)
  {
  }

  lemma PlacedNow(mid: seq<Byte>, page: seq<Byte>, argv: seq<Arg>, base: nat, i: nat)
    requires i < |argv| && base + Needed(argv) <= PAGE_SIZE && |mid| == |page| == PAGE_SIZE
    requires var at := StringPlace(argv, base, i);
      && at + |argv[i]| < PAGE_SIZE && Word(mid, base + WORD_SIZE * i) == UMEM_END_VMA - PAGE_SIZE + at
      && page[at..at + |argv[i]|] == argv[i] && page[at + |argv[i]|] == 0
      && (forall k :: 0 <= k < PAGE_SIZE && !(at <= k <= at + |argv[i]|) ==> page[k] == mid[k])
    ensures Placed(page, argv, base, i)
  {
    PlaceFits(argv, base, i);
  }

  lemma PlacedStays(before: seq<Byte>, page: seq<Byte>, argv: seq<Arg>, base: nat, i: nat, j: nat)
    requires j < i < |argv| && base + Needed(argv) <= PAGE_SIZE && |before| == |page| == PAGE_SIZE
    requires StringPlace(argv, base, j) + |argv[j]| < PAGE_SIZE && Placed(before, argv, base, j)
    requires var at := StringPlace(argv, base, i);
      forall k :: 0 <= k < PAGE_SIZE && !(at <= k <= at + |argv[i]|) && !(base + WORD_SIZE * i <= k < base + WORD_SIZE * i + 8) ==>
        page[k] == before[k]
    ensures Placed(page, argv, base, j)
  {
    PlaceFits(argv, base, j);
    PlaceFits(argv, base, i);
    PlacesOrdered(argv, base, j + 1, i);
    SamePart(before, page, argv, base, j);
  }

  lemma PlacedEnd(before: seq<Byte>, page: seq<Byte>, argv: seq<Arg>, base: nat, j: nat)
    requires j < |argv| && base + Needed(argv) <= PAGE_SIZE && |before| == |page| == PAGE_SIZE
    requires StringPlace(argv, base, j) + |argv[j]| < PAGE_SIZE && Placed(before, argv, base, j)
    requires forall k :: 0 <= k < PAGE_SIZE && !(base + WORD_SIZE * |argv| <= k < base + WORD_SIZE * |argv| + 8) ==> page[k] == before[k]
    ensures Placed(page, argv, base, j)
  {
    PlaceFits(argv, base, j);
    SamePart(before, page, argv, base, j);
  }

  lemma SamePart(before: seq<Byte>, page: seq<Byte>, argv: seq<Arg>, base: nat, j: nat)
    requires j < |argv| && base + Needed(argv) <= PAGE_SIZE && |before| == |page| == PAGE_SIZE
    requires StringPlace(argv, base, j) + |argv[j]| < PAGE_SIZE && Placed(before, argv, base, j)
    requires forall k :: base + WORD_SIZE * j <= k < base + WORD_SIZE * j + 8 ==> page[k] == before[k]
    requires var at := StringPlace(argv, base, j); forall k :: at <= k <= at + |argv[j]| ==> page[k] == before[k]
    ensures Placed(page, argv, base, j)
  {
    var at := StringPlace(argv, base, j);
    assert page[at..at + |argv[j]|] == before[at..at + |argv[j]|];
  }
}
