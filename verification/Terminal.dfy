/** The terminal filter of user programs: both line-ending machines, run over whole buffers. */
module Terminal {
  import opened Machine
  import opened LineEndings

  lemma InExtend(cr: bool, s: seq<Byte>, i: nat)
    requires i < |s|
    ensures InRun(cr, s[..i + 1]).0 == InRun(cr, s[..i]).0 + InStep(InRun(cr, s[..i]).1, s[i]).0
    ensures InRun(cr, s[..i + 1]).1 == InStep(InRun(cr, s[..i]).1, s[i]).1
  {
    assert s[..i + 1] == s[..i] + [s[i]];
    InConcat(cr, s[..i], [s[i]]);
    InOne(InRun(cr, s[..i]).1, s[i]);
  }

  lemma OutExtend(cr: bool, s: seq<Byte>, i: nat)
    requires i < |s|
    ensures OutRun(cr, s[..i + 1]).0 == OutRun(cr, s[..i]).0 + OutStep(OutRun(cr, s[..i]).1, s[i]).0
    ensures OutRun(cr, s[..i + 1]).1 == OutStep(OutRun(cr, s[..i]).1, s[i]).1
  {
    assert s[..i + 1] == s[..i] + [s[i]];
    OutConcat(cr, s[..i], [s[i]]);
    OutOne(OutRun(cr, s[..i]).1, s[i]);
  }

  /** A carriage return and a line feed next to each other in the buffer. */
  predicate IsPair(buf: seq<Byte>, i: nat)
    requires i < |buf|
  {
    buf[i] == CR && i + 1 < |buf| && buf[i + 1] == LF
  }

  /** What goes out for the character at `i`, or for the pair that starts there. */
  function Emitted(cr: bool, buf: seq<Byte>, i: nat): seq<Byte>
    requires i < |buf|
  {
    if IsPair(buf, i) then [CR, LF] else OutStep(cr, buf[i]).0
  }

  lemma EmittedIsRun(cr: bool, buf: seq<Byte>, i: nat)
    requires i < |buf|
    ensures var (mid, next) := (OutRun(cr, buf[..i]), if IsPair(buf, i) then i + 2 else i + 1);
      && OutRun(cr, buf[..next]).0 == mid.0 + Emitted(mid.1, buf, i)
      && OutRun(cr, buf[..next]).1 == (buf[i] == CR && !IsPair(buf, i))
  {
    hide OutRun;
    OutExtend(cr, buf, i);
    if IsPair(buf, i) {
      OutExtend(cr, buf, i + 1);
    }
  }

  class Term {
    var crIn: bool
    var crOut: bool
    /** The raw device: what has been written to it, and what is still to be read from it. */
    var output: seq<Byte>
    var input: seq<Byte>

    constructor (input: seq<Byte>)
      ensures !crIn && !crOut && output == [] && this.input == input
    {
      crIn, crOut, output, this.input := false, false, [], input;
    }

    /** uio_write and uio_putc of the raw device, which takes everything. */
    method RawWrite(s: seq<Byte>)
      modifies this`output
      ensures output == old(output) + s
    {
      output := output + s;
    }

    /** uio_read of the raw device: at least one byte, and no more than there are or fit. */
    method RawRead(buf: array<Byte>, len: nat) returns (cnt: nat)
      requires 0 < len <= buf.Length && input != []
      modifies this`input, buf
      ensures 0 < cnt <= len && cnt <= |old(input)|
      ensures buf[..cnt] == old(input)[..cnt] && input == old(input)[cnt..]
      ensures buf[len..] == old(buf[len..])
    {
      cnt :| 0 < cnt <= len && cnt <= |input|;
      for i := 0 to cnt
        invariant input == old(input) && buf[..i] == input[..i] && buf[len..] == old(buf[len..])
      {
        buf[i] := input[i];
      }
      input := input[cnt..];
    }

    /** uioterm_write: the buffer goes out through the machine, with as few raw writes as the buffer allows. The
        count misses a line feed that was dropped at the start. */
    method Write(buf: seq<Byte>) returns (acc: nat)
      modifies this`crOut, this`output
      ensures output == old(output) + OutRun(old(crOut), buf).0 && crOut == OutRun(old(crOut), buf).1
      ensures acc == if old(crOut) && buf != [] && buf[0] == LF then |buf| - 1 else |buf|
    {
      hide OutRun, Emitted;
      ghost var cr := crOut;
      acc := 0;
      var wp, rp := 0, 0;
      OutNone(cr);
      while rp < |buf|
        invariant 0 <= wp <= rp <= |buf| && wp == acc + if cr && rp > 0 && buf[0] == LF then 1 else 0
        invariant output + buf[wp..rp] == old(output) + OutRun(cr, buf[..rp]).0 && crOut == OutRun(cr, buf[..rp]).1
        invariant crOut ==> wp == rp && (rp > 0 ==> rp == |buf| || buf[rp] != LF)
      {
        Associative(old(output), OutRun(cr, buf[..rp]).0, Emitted(crOut, buf, rp));
        EmittedIsRun(cr, buf, rp);
        acc, wp, rp := WriteNext(buf, acc, wp, rp);
      }
      assert buf[..|buf|] == buf;
      if rp != wp {
        RawWrite(buf[wp..rp]);
        acc := acc + (rp - wp);
      }
    }

    /** One round of the loop of uioterm_write. */
    method WriteNext(buf: seq<Byte>, acc0: nat, wp0: nat, rp0: nat) returns (acc: nat, wp: nat, rp: nat)
      requires wp0 <= rp0 < |buf| && (crOut ==> wp0 == rp0)
      modifies this`crOut, this`output
      ensures rp == rp0 + (if IsPair(buf, rp0) then 2 else 1) && wp <= rp <= |buf|
      ensures output + buf[wp..rp] == old(output) + buf[wp0..rp0] + Emitted(old(crOut), buf, rp0)
      ensures crOut == (buf[rp0] == CR && !IsPair(buf, rp0)) && (crOut ==> wp == rp)
      ensures wp + acc0 == wp0 + acc + if old(crOut) && buf[rp0] == LF then 1 else 0
    {
      acc, wp, rp := acc0, wp0, rp0 + 1;
      var ch := buf[rp0];
      if ch == CR {
        if rp < |buf| && buf[rp] == LF {
          crOut := false;
          rp := rp + 1;
          assert buf[wp..rp] == buf[wp0..rp0] + [CR, LF];
        } else {
          RawWrite(buf[wp..rp]);
          acc := acc + (rp - wp);
          wp := rp;
          RawWrite([LF]);
          crOut := true;
          assert buf[wp0..rp0 + 1] == buf[wp0..rp0] + [CR];
        }
      } else if ch == LF {
        if crOut {
          crOut := false;
          wp := wp + 1;
        } else {
          if wp != rp - 1 {
            RawWrite(buf[wp..rp - 1]);
            acc := acc + (rp - 1 - wp);
            wp := rp - 1;
          }
          RawWrite([CR]);
          crOut := false;
          assert buf[wp..rp] == [LF];
        }
      } else {
        crOut := false;
        assert buf[wp0..rp0 + 1] == buf[wp0..rp0] + [ch];
      }
    }

    /** The in-place loop of uioterm_read: the filtered bytes are moved to the front. */
    method Filter(buf: array<Byte>, cnt: nat) returns (w: nat)
      requires cnt <= buf.Length
      modifies this`crIn, buf
      ensures w <= cnt && buf[..w] == InRun(old(crIn), old(buf[..cnt])).0 && crIn == InRun(old(crIn), old(buf[..cnt])).1
      ensures buf[cnt..] == old(buf[cnt..])
    {
      hide InRun;
      ghost var was, cr := buf[..cnt], crIn;
      w := 0;
      var rp := 0;
      InNone(cr);
      while rp < cnt
        invariant w <= rp <= cnt
        invariant buf[..w] == InRun(cr, was[..rp]).0 && crIn == InRun(cr, was[..rp]).1
        invariant forall j :: rp <= j < buf.Length ==> buf[j] == old(buf[j])
      {
        var ch := buf[rp];
        InExtend(cr, was, rp);
        rp := rp + 1;
        if crIn {
          if ch == CR {
            buf[w] := LF;
            w := w + 1;
          } else if ch == LF {
            crIn := false;
          } else {
            crIn := false;
            buf[w] := ch;
            w := w + 1;
          }
        } else {
          if ch == CR {
            crIn := true;
            buf[w] := LF;
            w := w + 1;
          } else {
            buf[w] := ch;
            w := w + 1;
          }
        }
      }
      assert was[..cnt] == was;
    }

    /** uioterm_read: raw reads until something is left after filtering. The bytes returned are what the machine
        makes of the raw input used up. When the machine makes nothing of all the input there is, the call uses it
        up and waits for more, which `r == 0` stands for. */
    method Read(buf: array<Byte>, len: nat) returns (r: nat)
      requires 0 < len <= buf.Length
      modifies this`crIn, this`input, buf
      ensures r <= len && |input| <= |old(input)| && input == old(input)[|old(input)| - |input|..]
      ensures r == 0 <==> InRun(old(crIn), old(input)).0 == []
      ensures r == 0 ==> input == []
      ensures var used := old(input)[..|old(input)| - |input|];
        buf[..r] == InRun(old(crIn), used).0 && crIn == InRun(old(crIn), used).1
    {
      hide InRun;
      ghost var cr, all, k: nat := crIn, input, 0;
      InNone(cr);
      r := 0;
      while r == 0 && input != []
        invariant k <= |all| && input == all[k..] && crIn == InRun(cr, all[..k]).1 && r <= len && (r > 0 ==> k > 0)
        invariant buf[..r] == InRun(cr, all[..k]).0
        decreases |input| - if r > 0 then 1 else 0
      {
        assert all[..|all|] == all;
        var cnt := RawRead(buf, len);
        assert all[k..][..cnt] == all[k..k + cnt] && all[..k] + all[k..k + cnt] == all[..k + cnt];
        InConcat(cr, all[..k], all[k..k + cnt]);
        r := Filter(buf, cnt);
        k := k + cnt;
      }
      assert all == all[..k] + all[k..];
      InConcat(cr, all[..k], all[k..]);
      InNone(crIn);
    }

    /** However a text is split into writes, the device gets what the machine makes of the whole text. */
    method WriteChunks(chunks: seq<seq<Byte>>)
      modifies this`crOut, this`output
      ensures output == old(output) + OutRun(old(crOut), Flatten(chunks)).0 && crOut == OutRun(old(crOut), Flatten(chunks)).1
    {
      hide OutRun;
      ghost var cr := crOut;
      OutNone(cr);
      for i := 0 to |chunks|
        invariant output == old(output) + OutRun(cr, Flatten(chunks[..i])).0 && crOut == OutRun(cr, Flatten(chunks[..i])).1
      {
        assert chunks[..i + 1][..i] == chunks[..i];
        OutConcat(cr, Flatten(chunks[..i]), chunks[i]);
        Associative(old(output), OutRun(cr, Flatten(chunks[..i])).0, OutRun(crOut, chunks[i]).0);
        var acc := Write(chunks[i]);
      }
      assert chunks[..|chunks|] == chunks;
    }

    /** However many reads it takes, and however the device splits the input, together they return what the machine
        makes of the input used up. `n` reads of `buf` are made, the later ones perhaps waiting. */
    method ReadChunks(buf: array<Byte>, n: nat) returns (text: seq<Byte>)
      requires buf.Length > 0
      modifies this`crIn, this`input, buf
      ensures |input| <= |old(input)| && input == old(input)[|old(input)| - |input|..]
      ensures var used := old(input)[..|old(input)| - |input|];
        text == InRun(old(crIn), used).0 && crIn == InRun(old(crIn), used).1
    {
      hide InRun;
      ghost var cr, all, k: nat := crIn, input, 0;
      InNone(cr);
      text := [];
      for i := 0 to n
        invariant k <= |all| && input == all[k..] && text == InRun(cr, all[..k]).0 && crIn == InRun(cr, all[..k]).1
      {
        var r := Read(buf, buf.Length);
        ghost var used := all[k..][..|all| - k - |input|];
        assert all[..k] + used == all[..|all| - |input|];
        InConcat(cr, all[..k], used);
        text := text + buf[..r];
        k := |all| - |input|;
      }
    }
  }

  /** The chunks one after the other. */
  function Flatten(chunks: seq<seq<Byte>>): seq<Byte> {
    if chunks == [] then [] else Flatten(chunks[..|chunks| - 1]) + chunks[|chunks| - 1]
  }

  lemma InNone(cr: bool)
    ensures InRun(cr, []) == ([], cr)
  {
  }

  lemma OutNone(cr: bool)
    ensures OutRun(cr, []) == ([], cr)
  {
  }
}
