/** Machine-level representations the baking code relies on: bytes, 32-bit
    words stored little-endian (the x86 Windows target), `int` wrap-around and
    `std::to_string` of an unsigned count. */
module Raw {

  type byte = x: int | 0 <= x < 0x100
  type Word32 = x: int | 0 <= x < 0x1_0000_0000

  /** The four bytes a 32-bit word occupies in memory, least significant first. */
  function LE32(w: Word32): (b: seq<byte>)
    ensures |b| == 4
  {
    [w % 0x100, w / 0x100 % 0x100, w / 0x100 / 0x100 % 0x100, w / 0x100 / 0x100 / 0x100]
  }

  /** The word stored in four little-endian bytes. */
  function WordOf(b: seq<byte>): Word32
    requires |b| == 4
  {
    b[0] as int + 0x100 * b[1] as int + 0x1_0000 * b[2] as int + 0x100_0000 * b[3] as int
  }

  lemma LE32RoundTrip(w: Word32)
    ensures WordOf(LE32(w)) == w
  {
    var q1 := w / 0x100;
    var q2 := q1 / 0x100;
    var q3 := q2 / 0x100;
    assert w == 0x100 * q1 + w % 0x100;
    assert q1 == 0x100 * q2 + q1 % 0x100;
    assert q2 == 0x100 * q3 + q2 % 0x100;
  }

  /** The bytes of a buffer of words, as `write((const char*)data, 4 * n)` emits them. */
  function Words(ws: seq<Word32>): (b: seq<byte>)
    ensures |b| == 4 * |ws|
  {
    if ws == [] then [] else Words(ws[..|ws| - 1]) + LE32(ws[|ws| - 1])
  }

  /** Reads a buffer of words back from its bytes. */
  function FromWords(b: seq<byte>): (ws: seq<Word32>)
    requires |b| % 4 == 0
    ensures |ws| == |b| / 4
  {
    if b == [] then [] else FromWords(b[..|b| - 4]) + [WordOf(b[|b| - 4..])]
  }

  /** Reading back a buffer with one more word appended gives that word last. */
  lemma FromWordsSnoc(b: seq<byte>, w: Word32)
    requires |b| % 4 == 0
    ensures FromWords(b + LE32(w)) == FromWords(b) + [w]
  {
    var c := b + LE32(w);
    assert c[..|c| - 4] == b;
    assert c[|c| - 4..] == LE32(w);
    LE32RoundTrip(w);
  }

  lemma {:induction false} WordsRoundTrip(ws: seq<Word32>)
    ensures FromWords(Words(ws)) == ws
  {
    if ws != [] {
      var init, last := ws[..|ws| - 1], ws[|ws| - 1];
      assert Words(ws) == Words(init) + LE32(last);
      FromWordsSnoc(Words(init), last);
      WordsRoundTrip(init);
      assert ws == init + [last];
    }
  }

  /** The first four bytes of a word buffer are its first word's. */
  lemma WordsHead(ws: seq<Word32>)
    requires ws != []
    ensures Words(ws)[..4] == LE32(ws[0])
  {
    assert ws == [ws[0]] + ws[1..];
    WordsAppend([ws[0]], ws[1..]);
    assert [ws[0]][..0] == [];
  }

  lemma {:induction false} WordsAppend(a: seq<Word32>, c: seq<Word32>)
    ensures Words(a + c) == Words(a) + Words(c)
  {
    if c != [] {
      var c', x := c[..|c| - 1], c[|c| - 1];
      assert (a + c)[..|a + c| - 1] == a + c';
      WordsAppend(a, c');
    } else {
      assert a + c == a;
    }
  }

  /** What storing a mathematical integer into a 32-bit `int` keeps: the value
      modulo 2^32, read back as two's complement. */
  function ToInt32(x: int): (r: int)
    ensures -0x8000_0000 <= r < 0x8000_0000
  {
    var m := x % 0x1_0000_0000;
    if m < 0x8000_0000 then m else m - 0x1_0000_0000
  }

  /** The stored value differs from the integer by a multiple of 2^32. */
  lemma ToInt32Congruent(x: int)
    ensures (ToInt32(x) - x) % 0x1_0000_0000 == 0
  {
  }

  /** An `int` that already fits is kept as it is. */
  lemma ToInt32InRange(x: int)
    requires -0x8000_0000 <= x < 0x8000_0000
    ensures ToInt32(x) == x
  {
  }

  predicate IsDigit(c: char) { '0' <= c <= '9' }

  function DigitChar(d: nat): (c: char)
    requires d < 10
    ensures IsDigit(c)
  {
    "0123456789"[d]
  }

  /** `std::to_string` of an unsigned value: its decimal digits, no sign, no leading zeros. */
  function NatToString(n: nat): (s: string)
    ensures 0 < |s|
    ensures forall k :: 0 <= k < |s| ==> IsDigit(s[k])
    ensures |s| > 1 ==> s[0] != '0'
  {
    if n < 10 then [DigitChar(n)] else NatToString(n / 10) + [DigitChar(n % 10)]
  }

  /** The number a string of decimal digits denotes. */
  function DecimalValue(s: string): nat
    requires forall k :: 0 <= k < |s| ==> IsDigit(s[k])
  {
    if s == [] then 0
    else
      assert IsDigit(s[|s| - 1]);
      10 * DecimalValue(s[..|s| - 1]) + (s[|s| - 1] as int - '0' as int)
  }

  lemma {:induction false} NatToStringRoundTrip(n: nat)
    ensures DecimalValue(NatToString(n)) == n
  {
    var s := NatToString(n);
    if n < 10 {
      assert s[..0] == [];
    } else {
      assert s[..|s| - 1] == NatToString(n / 10);
      NatToStringRoundTrip(n / 10);
    }
  }

  /** Distinct counts print differently. */
  lemma NatToStringInjective(m: nat, n: nat)
    requires NatToString(m) == NatToString(n)
    ensures m == n
  {
    NatToStringRoundTrip(m);
    NatToStringRoundTrip(n);
  }
}
