/** The allocation bitmaps as the device holds them: 512-byte blocks, one bit per inode or data block. */
module KtfsBitmaps {
  import opened Results
  import opened KtfsImage

  type BitmapBlock = b: seq<bv8> | |b| == 512 witness seq(512, _ => 0)

  /** 1 shifted left by `k`. */
  function Mask(k: nat): bv8
    requires k < 8
  {
    match k
    case 0 => 1
    case 1 => 2
    case 2 => 4
    case 3 => 8
    case 4 => 16
    case 5 => 32
    case 6 => 64
    case _ => 128
  }

  predicate Bit(byte: bv8, k: nat)
    requires k < 8
  {
    byte & Mask(k) != 0
  }

  function SetBit(byte: bv8, k: nat, status: bool): bv8
    requires k < 8
  {
    if status then byte | Mask(k) else byte & !Mask(k)
  }

  /** Setting a bit changes that bit only. */
  lemma BitOfSetBit(byte: bv8, k: nat, status: bool, j: nat)
    requires k < 8 && j < 8
    ensures Bit(SetBit(byte, k, status), j) == if j == k then status else Bit(byte, j)
  {
  }

  // ---------------------------------------------------------------- bytes as numbers

  function Pow2(k: nat): (p: nat)
    ensures p > 0
  {
    if k == 0 then 1 else 2 * Pow2(k - 1)
  }

  /** The binary digit of weight 2^k. */
  function Digit(n: nat, k: nat): nat {
    n / Pow2(k) % 2
  }

  /** The number with the given binary digits, lowest first. */
  function Number(digits: seq<nat>): nat {
    if digits == [] then 0 else digits[0] + 2 * Number(digits[1..])
  }

  lemma Quotient(n: nat, p: nat, q: nat, low: nat)
    requires p > 0 && n == p * q + low && low < p
    ensures n / p == q
  {
    if n / p < q {
      TimesLess(p, n / p, q);
    } else if n / p > q {
      TimesLess(p, q, n / p);
    }
  }

  lemma {:induction false} TimesLess(p: nat, a: nat, b: nat)
    requires a < b
    ensures p * a + p <= p * b
  {
    if b > a + 1 {
      TimesLess(p, a, b - 1);
    }
  }

  lemma Halved(n: nat, p: nat)
    requires p > 0
    ensures n / (2 * p) == n / 2 / p
  {
    var q := n / (2 * p);
    var r := n - 2 * p * q;
    assert n == 2 * p * q + r && r < 2 * p && n / 2 == p * q + r / 2;
    Quotient(n / 2, p, q, r / 2);
  }

  lemma {:induction false} DigitOfNumber(digits: seq<nat>, k: nat)
    requires k < |digits| && forall j :: 0 <= j < |digits| ==> digits[j] <= 1
    ensures Digit(Number(digits), k) == digits[k]
  {
    if k > 0 {
      DigitOfNumber(digits[1..], k - 1);
      Halved(Number(digits), Pow2(k - 1));
    }
  }

  lemma {:induction false} NumberUpdated(digits: seq<nat>, k: nat, d: nat)
    requires k < |digits|
    ensures Number(digits[k := d]) + digits[k] * Pow2(k) == Number(digits) + d * Pow2(k)
  {
    if k > 0 {
      NumberUpdated(digits[1..], k - 1, d);
      assert digits[k := d][1..] == digits[1..][k - 1 := d];
      Doubled(digits[k], Pow2(k - 1));
      Doubled(d, Pow2(k - 1));
    }
  }

  lemma Doubled(x: nat, p: nat)
    ensures x * (2 * p) == 2 * (x * p)
  {
  }

  function Bit01(byte: bv8, k: nat): nat
    requires k < 8
  {
    if Bit(byte, k) then 1 else 0
  }

  function DigitsOf(byte: bv8): (digits: seq<nat>)
    ensures |digits| == 8 && forall k :: 0 <= k < 8 ==> digits[k] == Bit01(byte, k) <= 1
  {
    seq(8, k requires 0 <= k < 8 => Bit01(byte, k))
  }

  lemma SumOfBits(byte: bv8)
    ensures byte as int == Bit01(byte, 0) + 2 * Bit01(byte, 1) + 4 * Bit01(byte, 2) + 8 * Bit01(byte, 3)
                           + 16 * Bit01(byte, 4) + 32 * Bit01(byte, 5) + 64 * Bit01(byte, 6) + 128 * Bit01(byte, 7)
  {
  }

  lemma NumberOfEight(d: seq<nat>)
    requires |d| == 8
    ensures Number(d) == d[0] + 2 * d[1] + 4 * d[2] + 8 * d[3] + 16 * d[4] + 32 * d[5] + 64 * d[6] + 128 * d[7]
  {
    hide Number;
    assert d[0..] == d;
    NumberFrom(d, 0);
    NumberFrom(d, 1);
    NumberFrom(d, 2);
    NumberFrom(d, 3);
    NumberFrom(d, 4);
    NumberFrom(d, 5);
    NumberFrom(d, 6);
    NumberFrom(d, 7);
  }

  lemma NumberFrom(d: seq<nat>, i: nat)
    requires i < |d|
    ensures Number(d[i..]) == d[i] + 2 * Number(d[i + 1..]) && (i + 1 == |d| ==> Number(d[i + 1..]) == 0)
  {
    assert d[i..][1..] == d[i + 1..];
  }

  lemma NumberOfByte(byte: bv8)
    ensures byte as int == Number(DigitsOf(byte))
  {
    hide Bit01;
    SumOfBits(byte);
    NumberOfEight(DigitsOf(byte));
  }

  /** A bit of a byte is a digit of the number that the byte is. */
  lemma BitIsDigit(byte: bv8, k: nat)
    requires k < 8
    ensures Bit(byte, k) <==> Digit(byte as int, k) == 1
  {
    hide Bit, Digit, Number;
    NumberOfByte(byte);
    DigitOfNumber(DigitsOf(byte), k);
  }

  /** Setting a bit changes that number by the weight of its digit, if at all. */
  lemma SetBitIs(byte: bv8, k: nat, status: bool)
    requires k < 8
    ensures SetBit(byte, k, status) as int + Digit(byte as int, k) * Pow2(k) == byte as int + if status then Pow2(k) else 0
  {
    SetBitDigits(byte, k, status);
    hide Bit, SetBit, Digit, Number, Pow2;
    NumberOfByte(byte);
    NumberOfByte(SetBit(byte, k, status));
    DigitOfNumber(DigitsOf(byte), k);
    NumberUpdated(DigitsOf(byte), k, if status then 1 else 0);
  }

  lemma SetBitDigits(byte: bv8, k: nat, status: bool)
    requires k < 8
    ensures DigitsOf(SetBit(byte, k, status)) == DigitsOf(byte)[k := if status then 1 else 0]
  {
    hide Bit, SetBit;
    forall j | 0 <= j < 8
      ensures DigitsOf(SetBit(byte, k, status))[j] == DigitsOf(byte)[k := if status then 1 else 0][j]
    {
      BitOfSetBit(byte, k, status, j);
    }
  }

  predicate BitAt(blocks: seq<BitmapBlock>, n: nat)
    requires n < |blocks| * BITS_PER_BLOCK
  {
    Bit(blocks[n / BITS_PER_BLOCK][n % BITS_PER_BLOCK / 8], n % 8)
  }

  ghost predicate IsBits(blocks: seq<BitmapBlock>, bits: seq<bool>) {
    && |bits| == |blocks| * BITS_PER_BLOCK
    && (forall n {:trigger BitAt(blocks, n)} :: 0 <= n < |bits| ==> bits[n] == BitAt(blocks, n))
  }

  /** The bits of the whole bitmap, in order. */
  ghost function Bits(blocks: seq<BitmapBlock>): (bits: seq<bool>)
    ensures |bits| == |blocks| * BITS_PER_BLOCK
  {
    BitsExist(blocks);
    var bits: seq<bool> :| IsBits(blocks, bits);
    bits
  }

  function BitList(blocks: seq<BitmapBlock>): seq<bool> {
    seq(|blocks| * BITS_PER_BLOCK, n requires 0 <= n < |blocks| * BITS_PER_BLOCK => BitAt(blocks, n))
  }

  lemma BitsExist(blocks: seq<BitmapBlock>)
    ensures exists bits: seq<bool> :: IsBits(blocks, bits)
  {
    assert IsBits(blocks, BitList(blocks));
  }

  lemma BitListIsBits(blocks: seq<BitmapBlock>)
    ensures BitList(blocks) == Bits(blocks)
  {
    forall n | 0 <= n < |Bits(blocks)|
      ensures BitList(blocks)[n] == Bits(blocks)[n]
    {
      assert Bits(blocks)[n] == BitAt(blocks, n);
    }
  }

  lemma Eighth(x: int, d: int, k: int)
    requires x == 8 * d + k && 0 <= k < 8
    ensures x / 8 == d && x % 8 == k
  {
  }

  lemma Place(i: nat, j: nat, k: nat)
    requires j < BLKSZ && k < 8
    ensures var n := i * BITS_PER_BLOCK + j * 8 + k;
      n / BITS_PER_BLOCK == i && n % BITS_PER_BLOCK / 8 == j && n % 8 == k
  {
    var n := i * BITS_PER_BLOCK + j * 8 + k;
    assert n / BITS_PER_BLOCK == i && n % BITS_PER_BLOCK == j * 8 + k;
    Eighth(j * 8 + k, j, k);
    Eighth(n, 512 * i + j, k);
  }

  lemma PlaceOf(n: nat)
    ensures n == n / BITS_PER_BLOCK * BITS_PER_BLOCK + n % BITS_PER_BLOCK / 8 * 8 + n % 8
    ensures n % BITS_PER_BLOCK / 8 < BLKSZ
  {
    var q, r := n / BITS_PER_BLOCK, n % BITS_PER_BLOCK;
    Eighth(r, r / 8, r % 8);
    Eighth(n, 512 * q + r / 8, r % 8);
  }

  lemma BitsAt(blocks: seq<BitmapBlock>, i: nat, j: nat, k: nat)
    requires i < |blocks| && j < BLKSZ && k < 8
    ensures i * BITS_PER_BLOCK + j * 8 + k < |Bits(blocks)|
    ensures Bits(blocks)[i * BITS_PER_BLOCK + j * 8 + k] == Bit(blocks[i][j], k)
  {
    Place(i, j, k);
    assert BitAt(blocks, i * BITS_PER_BLOCK + j * 8 + k) == Bit(blocks[i][j], k);
  }

  /** Whether item `n` is in use, by the number that its byte is: digit `n % 8` of the byte with index `n / 8`, counted over
      all blocks. */
  predicate InUse(blocks: seq<BitmapBlock>, n: nat)
    requires n < |blocks| * BITS_PER_BLOCK
  {
    Digit(blocks[n / BITS_PER_BLOCK][n % BITS_PER_BLOCK / 8] as int, n % 8) == 1
  }

  lemma BitsAreInUse(blocks: seq<BitmapBlock>)
    ensures forall n: nat :: n < |blocks| * BITS_PER_BLOCK ==> (InUse(blocks, n) <==> Bits(blocks)[n])
  {
    hide Bit, Digit;
    forall n: nat | n < |blocks| * BITS_PER_BLOCK
      ensures InUse(blocks, n) <==> Bits(blocks)[n]
    {
      assert Bits(blocks)[n] == BitAt(blocks, n);
      BitIsDigit(blocks[n / BITS_PER_BLOCK][n % BITS_PER_BLOCK / 8], n % 8);
    }
  }

  /** The byte of item `n` loses the weight of its digit, if that is set, and gains it for a status that is set; all
      other bytes stay. */
  ghost predicate ByteChanged(before: seq<BitmapBlock>, after: seq<BitmapBlock>, n: nat, status: bool)
    requires n < |before| * BITS_PER_BLOCK
  {
    var (i, j, k) := (n / BITS_PER_BLOCK, n % BITS_PER_BLOCK / 8, n % 8);
    && |after| == |before|
    && (forall g, h :: 0 <= g < |before| && 0 <= h < 512 && (g != i || h != j) ==> after[g][h] == before[g][h])
    && after[i][j] as int + Digit(before[i][j] as int, k) * Pow2(k) == before[i][j] as int + if status then Pow2(k) else 0
  }

  lemma WithStatusChanges(blocks: seq<BitmapBlock>, n: nat, status: bool)
    requires n < |blocks| * BITS_PER_BLOCK
    ensures ByteChanged(blocks, WithStatus(blocks, n, status), n, status)
  {
    hide SetBit, Digit, Pow2;
    SetBitIs(blocks[n / BITS_PER_BLOCK][n % BITS_PER_BLOCK / 8], n % 8, status);
  }

  /** The search within bitmap block `i`, over its bytes and the masks of a byte. */
  method FindInBlock(blocks: seq<BitmapBlock>, i: nat) returns (r: Option<nat>)
    requires i < |blocks| && forall u :: 0 <= u < i * BITS_PER_BLOCK ==> Bits(blocks)[u]
    ensures r.Some? ==> i * BITS_PER_BLOCK <= r.value < (i + 1) * BITS_PER_BLOCK && !Bits(blocks)[r.value]
                        && (forall u :: 0 <= u < r.value ==> Bits(blocks)[u])
                        && r.value < |blocks| * BITS_PER_BLOCK && !InUse(blocks, r.value)
                        && forall u: nat :: u < r.value ==> InUse(blocks, u)
    ensures r.None? ==> forall u :: 0 <= u < (i + 1) * BITS_PER_BLOCK ==> Bits(blocks)[u]
  {
    BitsAreInUse(blocks);
    hide Bits, InUse;
    for j := 0 to BLKSZ
      invariant forall u :: 0 <= u < i * BITS_PER_BLOCK + j * 8 ==> Bits(blocks)[u]
    {
      var byte := blocks[i][j];
      for k := 0 to 8
        invariant forall u :: 0 <= u < i * BITS_PER_BLOCK + j * 8 + k ==> Bits(blocks)[u]
      {
        BitsAt(blocks, i, j, k);
        if byte & Mask(k) == 0 {
          return Some(i * BITS_PER_BLOCK + j * 8 + k);
        }
      }
    }
    r := None;
  }

  /** One byte of the bitmap rewritten, as set_inode_status and set_data_block_status do. */
  function WithStatus(blocks: seq<BitmapBlock>, n: nat, status: bool): seq<BitmapBlock>
    requires n < |blocks| * BITS_PER_BLOCK
  {
    var i, j := n / BITS_PER_BLOCK, n % BITS_PER_BLOCK / 8;
    blocks[i := blocks[i][j := SetBit(blocks[i][j], n % 8, status)]]
  }

  /** Bit `n` takes the status and every other bit of the whole bitmap stays. */
  lemma BitsWithStatus(blocks: seq<BitmapBlock>, n: nat, status: bool)
    requires n < |blocks| * BITS_PER_BLOCK
    ensures Bits(WithStatus(blocks, n, status)) == Bits(blocks)[n := status]
  {
    var after := WithStatus(blocks, n, status);
    PlaceOf(n);
    forall u: nat | u < |Bits(blocks)|
      ensures Bits(after)[u] == if u == n then status else Bits(blocks)[u]
    {
      PlaceOf(u);
      BitAtWithStatus(blocks, n, status, u);
      assert Bits(after)[u] == BitAt(after, u) && Bits(blocks)[u] == BitAt(blocks, u);
    }
  }

  lemma BitAtWithStatus(blocks: seq<BitmapBlock>, n: nat, status: bool, u: nat)
    requires n < |blocks| * BITS_PER_BLOCK && u < |blocks| * BITS_PER_BLOCK
    ensures BitAt(WithStatus(blocks, n, status), u) == if u == n then status else BitAt(blocks, u)
  {
    PlaceOf(n);
    PlaceOf(u);
    BitOfSetBit(blocks[n / BITS_PER_BLOCK][n % BITS_PER_BLOCK / 8], n % 8, status, u % 8);
  }
}
