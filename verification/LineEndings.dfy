/** The two line-ending filters of a terminal as per-character machines, with one bit of state each. */
module LineEndings {
  import opened Machine

  const CR: Byte := 13
  const LF: Byte := 10

  /** Input: a carriage return becomes a line feed, and a line feed right after one is dropped. */
  function InStep(cr: bool, ch: Byte): (seq<Byte>, bool) {
    if ch == CR then ([LF], true)
    else if cr && ch == LF then ([], false)
    else ([ch], false)
  }

  function InRun(cr: bool, s: seq<Byte>): (seq<Byte>, bool)
    decreases |s|
  {
    if s == [] then ([], cr)
    else
      var (out, cr') := InStep(cr, s[0]);
      var (rest, end) := InRun(cr', s[1..]);
      (out + rest, end)
  }

  /** Output: lone carriage returns and line feeds become pairs, and pairs stay. */
  function OutStep(cr: bool, ch: Byte): (seq<Byte>, bool) {
    if ch == CR then ([CR, LF], true)
    else if ch == LF then (if cr then [] else [CR, LF], false)
    else ([ch], false)
  }

  function OutRun(cr: bool, s: seq<Byte>): (seq<Byte>, bool)
    decreases |s|
  {
    if s == [] then ([], cr)
    else
      var (out, cr') := OutStep(cr, s[0]);
      var (rest, end) := OutRun(cr', s[1..]);
      (out + rest, end)
  }

  function InNorm(s: seq<Byte>): seq<Byte> {
    InRun(false, s).0
  }

  function OutNorm(s: seq<Byte>): seq<Byte> {
    OutRun(false, s).0
  }

  // ---------------------------------------------------------------- any split into chunks

  lemma Associative(a: seq<Byte>, b: seq<Byte>, c: seq<Byte>)
    ensures a + (b + c) == a + b + c
  {
  }

  lemma {:induction false} InConcat(cr: bool, a: seq<Byte>, b: seq<Byte>)
    ensures InRun(cr, a + b).0 == InRun(cr, a).0 + InRun(InRun(cr, a).1, b).0
    ensures InRun(cr, a + b).1 == InRun(InRun(cr, a).1, b).1
    decreases |a|
  {
    if a == [] {
      assert a + b == b;
    } else {
      var step := InStep(cr, a[0]);
      var x := InRun(step.1, a[1..]);
      assert (a + b)[1..] == a[1..] + b;
      InConcat(step.1, a[1..], b);
      Associative(step.0, x.0, InRun(x.1, b).0);
    }
  }

  lemma {:induction false} OutConcat(cr: bool, a: seq<Byte>, b: seq<Byte>)
    ensures OutRun(cr, a + b).0 == OutRun(cr, a).0 + OutRun(OutRun(cr, a).1, b).0
    ensures OutRun(cr, a + b).1 == OutRun(OutRun(cr, a).1, b).1
    decreases |a|
  {
    if a == [] {
      assert a + b == b;
    } else {
      var step := OutStep(cr, a[0]);
      var x := OutRun(step.1, a[1..]);
      assert (a + b)[1..] == a[1..] + b;
      OutConcat(step.1, a[1..], b);
      Associative(step.0, x.0, OutRun(x.1, b).0);
    }
  }

  lemma InOne(cr: bool, ch: Byte)
    ensures InRun(cr, [ch]).0 == InStep(cr, ch).0 && InRun(cr, [ch]).1 == InStep(cr, ch).1
  {
    assert [ch][1..] == [];
  }

  lemma OutOne(cr: bool, ch: Byte)
    ensures OutRun(cr, [ch]).0 == OutStep(cr, ch).0 && OutRun(cr, [ch]).1 == OutStep(cr, ch).1
  {
    assert [ch][1..] == [];
  }

  // ---------------------------------------------------------------- character by character

  predicate AfterCr(s: seq<Byte>, i: nat)
    requires i <= |s|
  {
    i > 0 && s[i - 1] == CR
  }

  /** What the first `n` characters of a text become: each carriage return one line feed, a line feed right after one
      nothing, and every other character itself. */
  function Read(s: seq<Byte>, n: nat): seq<Byte>
    requires n <= |s|
  {
    if n == 0 then []
    else if s[n - 1] == CR then Read(s, n - 1) + [LF]
    else if s[n - 1] == LF && AfterCr(s, n - 1) then Read(s, n - 1)
    else Read(s, n - 1) + [s[n - 1]]
  }

  /** What they become on the way out: each carriage return, and each line feed not right after one, the pair, and every
      character that is neither itself. */
  function Written(s: seq<Byte>, n: nat): seq<Byte>
    requires n <= |s|
  {
    if n == 0 then []
    else if s[n - 1] == CR || (s[n - 1] == LF && !AfterCr(s, n - 1)) then Written(s, n - 1) + [CR, LF]
    else if s[n - 1] == LF then Written(s, n - 1)
    else Written(s, n - 1) + [s[n - 1]]
  }

  lemma {:induction false} RunsAre(s: seq<Byte>, n: nat)
    requires n <= |s|
    ensures InRun(false, s[..n]) == (Read(s, n), AfterCr(s, n))
    ensures OutRun(false, s[..n]) == (Written(s, n), AfterCr(s, n))
  {
    hide InRun, OutRun;
    if n == 0 {
      NoneRun();
      assert s[..0] == [];
    } else {
      RunsAre(s, n - 1);
      assert s[..n] == s[..n - 1] + [s[n - 1]];
      InConcat(false, s[..n - 1], [s[n - 1]]);
      OutConcat(false, s[..n - 1], [s[n - 1]]);
      InOne(AfterCr(s, n - 1), s[n - 1]);
      OutOne(AfterCr(s, n - 1), s[n - 1]);
      assert Read(s, n - 1) + [] == Read(s, n - 1) && Written(s, n - 1) + [] == Written(s, n - 1);
    }
  }

  /** The filters, as what becomes of each character of the text. */
  lemma NormsAre(s: seq<Byte>)
    ensures InNorm(s) == Read(s, |s|) && OutNorm(s) == Written(s, |s|)
  {
    RunsAre(s, |s|);
    assert s[..|s|] == s;
  }

  // ---------------------------------------------------------------- laws

  /** Reading back what was written out gives what reading the text itself gives. */
  lemma {:induction false} InAfterOutFrom(cr: bool, s: seq<Byte>)
    ensures InRun(false, OutRun(cr, s).0).0 == InRun(cr, s).0
    decreases |s|
  {
    if s != [] {
      var (out, cr') := OutStep(cr, s[0]);
      InAfterOutFrom(cr', s[1..]);
      InConcat(false, out, OutRun(cr', s[1..]).0);
      Piece(cr, s[0]);
    }
  }

  /** What one character puts out leaves both machines as they were: the input machine reads it as the character
      itself, and the output machine repeats it. */
  lemma Piece(cr: bool, ch: Byte)
    ensures InRun(false, OutStep(cr, ch).0).0 == InStep(cr, ch).0 && !InRun(false, OutStep(cr, ch).0).1
    ensures OutRun(false, OutStep(cr, ch).0).0 == OutStep(cr, ch).0 && !OutRun(false, OutStep(cr, ch).0).1
    ensures InStep(cr, ch).1 == OutStep(cr, ch).1
  {
    hide InRun, OutRun;
    InOne(false, ch);
    OutOne(false, ch);
    InOne(false, CR);
    OutOne(false, CR);
    InOne(true, LF);
    OutOne(true, LF);
    InConcat(false, [CR], [LF]);
    OutConcat(false, [CR], [LF]);
    assert [CR] + [LF] == [CR, LF];
    NoneRun();
  }

  lemma NoneRun()
    ensures InRun(false, []) == ([], false) && OutRun(false, []) == ([], false)
  {
  }

  /** Writing out what was written out changes nothing. */
  lemma {:induction false} OutAgainFrom(cr: bool, s: seq<Byte>)
    ensures OutRun(false, OutRun(cr, s).0).0 == OutRun(cr, s).0
    decreases |s|
  {
    if s != [] {
      var (out, cr') := OutStep(cr, s[0]);
      OutAgainFrom(cr', s[1..]);
      OutConcat(false, out, OutRun(cr', s[1..]).0);
      Piece(cr, s[0]);
    }
  }

  lemma {:induction false} InWithoutCr(s: seq<Byte>)
    requires CR !in s
    ensures InRun(false, s).0 == s
    decreases |s|
  {
    if s != [] {
      assert s[0] in s && forall c :: c in s[1..] ==> c in s;
      InWithoutCr(s[1..]);
      assert [s[0]] + s[1..] == s;
    }
  }

  /** The laws of the pair of filters, on whole texts. */
  lemma FilterLaws(s: seq<Byte>)
    ensures InNorm(OutNorm(s)) == InNorm(s)
    ensures OutNorm(OutNorm(s)) == OutNorm(s)
    ensures CR !in s ==> InNorm(OutNorm(s)) == s
  {
    InAfterOutFrom(false, s);
    OutAgainFrom(false, s);
    if CR !in s {
      InWithoutCr(s);
    }
  }
}
