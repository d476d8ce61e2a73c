/**
  The 32-bit machine the kernel runs on: unsigned and signed 32-bit values,
  page-sized rounding, the error numbers of include/kernel/status.h, and the
  bitwise operators the kernel applies to page-table words.
 */
module Machine {
  const TWO32: int := 0x1_0000_0000
  const PAGE_SIZE: int := 4096

  /** An unsigned 32-bit value: `uint32_t`, `size_t`, and every pointer. */
  type u32 = x: int | 0 <= x < 0x1_0000_0000

  /** A signed 32-bit value: `int`. */
  type i32 = x: int | -0x8000_0000 <= x < 0x8000_0000

  const NULL: u32 := 0

  const OK: i32 := 0
  const EIO: i32 := -1
  const EINVAGS: i32 := -2
  const ENOMEM: i32 := -3
  const EISTKN: i32 := -8

  /** Unsigned 32-bit wrap-around. */
  function Wrap(x: int): u32 {
    x % 0x1_0000_0000
  }

  /** 32-bit addition. */
  function Add32(a: u32, b: u32): u32 {
    (a as int + b as int) % 0x1_0000_0000
  }

  lemma WrapSmall(x: u32)
    ensures Wrap(x) == x
  {
  }

  /** Conversion of a 32-bit pattern to `int`. */
  function ToInt32(x: int): i32 {
    var w := x % 0x1_0000_0000;
    if w < 0x8000_0000 then w else w - 0x1_0000_0000
  }

  /** Byte k of a word, lowest first. */
  function ByteIn(word: u32, k: nat): nat
    requires k < 4
  {
    if k == 0 then word % 256 else ByteIn(word / 256, k - 1)
  }

  lemma DivideTwice(n: nat)
    ensures n / 0x100 / 0x100 == n / 0x1_0000 && n / 0x1_0000 / 0x100 == n / 0x100_0000
  {
  }

  lemma ByteByDivision(word: u32)
    ensures ByteIn(word, 0) == word % 256 && ByteIn(word, 1) == word / 0x100 % 256
    ensures ByteIn(word, 2) == word / 0x1_0000 % 256 && ByteIn(word, 3) == word / 0x100_0000 % 256
  {
    hide ByteIn;
    var one := word / 256;
    ByteOfRest(word, 1);
    ByteOfRest(word, 2);
    ByteOfRest(word, 3);
    ByteOfRest(one, 1);
    ByteOfRest(one, 2);
    ByteOfRest(one / 256, 1);
    DivideTwice(word);
  }

  lemma ByteOfRest(word: u32, k: nat)
    requires 0 < k < 4
    ensures ByteIn(word, k) == ByteIn(word / 256, k - 1)
    ensures ByteIn(word, 0) == word % 256 && ByteIn(word / 256, 0) == word / 256 % 256
  {
  }

  /** The bytes of a word in memory, the lowest first. */
  lemma BytesOfWord(word: u32)
    ensures word == ByteIn(word, 0) + 256 * ByteIn(word, 1) + 0x1_0000 * ByteIn(word, 2) + 0x100_0000 * ByteIn(word, 3)
    ensures ByteIn(word, 0) < 256 && ByteIn(word, 1) < 256 && ByteIn(word, 2) < 256 && ByteIn(word, 3) < 256
  {
    hide ByteIn;
    ByteByDivision(word);
    DivideTwice(word);
    var one := word / 256;
    var two := one / 256;
    assert word == 256 * one + word % 256 && one == 256 * two + one % 256 && two == 256 * (two / 256) + two % 256;
    assert two / 256 < 256;
  }

  /** The word with byte k replaced. */
  function WithByte(word: u32, k: nat, byte: nat): (r: u32)
    requires k < 4 && byte < 256
    ensures word < 0x100 && k == 0 ==> r < 0x100
    ensures word < 0x1_0000 && k <= 1 ==> r < 0x1_0000
    ensures word < 0x100_0000 && k <= 2 ==> r < 0x100_0000
  {
    if k == 0 then word - word % 256 + byte else word % 256 + 256 * WithByte(word / 256, k - 1, byte)
  }

  /** No other byte changes. */
  lemma {:induction false} WithByteIs(word: u32, k: nat, byte: nat, j: nat)
    requires k < 4 && byte < 256 && j < 4
    ensures ByteIn(WithByte(word, k, byte), j) == if j == k then byte else ByteIn(word, j)
    decreases k
  {
    var r := WithByte(word, k, byte);
    if k == 0 {
      assert r == 256 * (word / 256) + byte && r / 256 == word / 256;
    } else {
      var rest := WithByte(word / 256, k - 1, byte);
      assert r == 256 * rest + word % 256 && r / 256 == rest;
      if j > 0 {
        WithByteIs(word / 256, k - 1, byte, j - 1);
      }
    }
  }

  lemma {:induction false} BytesOfZero(k: nat)
    requires k < 4
    ensures ByteIn(0, k) == 0
    decreases k
  {
    if k > 0 {
      BytesOfZero(k - 1);
    }
  }

  /** `|` on non-negative integers. */
  function BitOr(a: nat, b: nat): nat
    decreases a + b
  {
    if a == 0 && b == 0 then 0
    else (if a % 2 == 1 || b % 2 == 1 then 1 else 0) + 2 * BitOr(a / 2, b / 2)
  }

  /** `&` on non-negative integers. */
  function BitAnd(a: nat, b: nat): nat
    decreases a + b
  {
    if a == 0 && b == 0 then 0
    else (if a % 2 == 1 && b % 2 == 1 then 1 else 0) + 2 * BitAnd(a / 2, b / 2)
  }

  function Pow2(k: nat): nat {
    if k == 0 then 1 else 2 * Pow2(k - 1)
  }

  lemma Pow2Values()
    ensures Pow2(12) == 4096 && Pow2(20) == 0x10_0000
  {
    assert Pow2(4) == 16;
    assert Pow2(8) == 256;
    assert Pow2(12) == 4096;
    assert Pow2(16) == 0x1_0000;
  }

  /** `&` with k ones keeps a value that fits in k bits. */
  lemma {:induction false} AndOnes(x: nat, k: nat)
    requires x < Pow2(k)
    ensures BitAnd(x, Pow2(k) - 1) == x
    decreases k
  {
    if k > 0 {
      AndOnes(x / 2, k - 1);
      assert (Pow2(k) - 1) / 2 == Pow2(k - 1) - 1;
    }
  }

  /** Halving step: an even mask ignores the lowest bit. */
  lemma AndEven(x: nat, m: nat)
    ensures BitAnd(x, 2 * m) == 2 * BitAnd(x / 2, m)
  {
  }

  /** `x & 0xFFFFF000`: the frame address stored in a page-table word. */
  function Frame(x: u32): (r: u32)
    ensures r == x - x % PAGE_SIZE
  {
    FrameIsPageBase(x);
    BitAnd(x, 0xFFFFF000)
  }

  /** Masking with 0xFFFFF000 rounds a 32-bit value down to its page base. */
  lemma FrameIsPageBase(x: u32)
    ensures BitAnd(x, 0xFFFFF000) == x - x % 4096
  {
    Pow2Values();
    AndShift4(x, 0xFFFFF00);
    AndShift4(x / 16, 0xFFFFF0);
    AndShift4(x / 256, 0xFFFFF);
    assert x / 16 / 16 == x / 256 && x / 256 / 16 == x / 4096;
    AndOnes(x / 4096, 20);
  }

  /** Four halving steps. */
  lemma AndShift4(x: nat, m: nat)
    ensures BitAnd(x, 16 * m) == 16 * BitAnd(x / 16, m)
  {
    AndEven(x, 8 * m);
    AndEven(x / 2, 4 * m);
    AndEven(x / 2 / 2, 2 * m);
    AndEven(x / 2 / 2 / 2, m);
    assert x / 2 / 2 / 2 / 2 == x / 16;
  }

  /** `|` works on the lowest two bits and on the rest separately. */
  lemma OrPair(x: nat, b: nat)
    ensures BitOr(x, b) == 4 * BitOr(x / 4, b / 4) + BitOr(x % 4, b % 4)
    ensures BitOr(x % 4, b % 4) < 4
  {
    hide BitOr;
    OrHalf(x, b);
    OrHalf(x / 2, b / 2);
    var y, c := x % 4, b % 4;
    OrHalf(y, c);
    OrHalf(y / 2, c / 2);
    OrZero(0);
    assert y / 2 / 2 == 0 && c / 2 / 2 == 0 && x / 2 / 2 == x / 4 && b / 2 / 2 == b / 4;
  }

  /** `|` works on the lowest four bits and on the rest separately. */
  lemma OrNibble(x: nat, b: nat)
    ensures BitOr(x, b) / 16 == BitOr(x / 16, b / 16)
    ensures x % 16 == 0 ==> BitOr(x, b) == 16 * BitOr(x / 16, b / 16) + b % 16
  {
    hide BitOr;
    OrPair(x, b);
    OrPair(x / 4, b / 4);
    assert x / 4 / 4 == x / 16 && b / 4 / 4 == b / 16;
    if x % 16 == 0 {
      assert x % 4 == 0 && x / 4 % 4 == 0;
      ZeroOr(b % 4);
      ZeroOr(b / 4 % 4);
    }
  }

  lemma OrHalf(x: nat, b: nat)
    ensures BitOr(x, b) == 2 * BitOr(x / 2, b / 2) + (if x % 2 == 1 || b % 2 == 1 then 1 else 0)
  {
  }

  lemma {:induction false} OrZero(a: nat)
    ensures BitOr(a, 0) == a
    decreases a
  {
    if a > 0 {
      OrZero(a / 2);
    }
  }

  lemma {:induction false} ZeroOr(b: nat)
    ensures BitOr(0, b) == b
    decreases b
  {
    if b > 0 {
      ZeroOr(b / 2);
    }
  }

  lemma {:induction false} OrBounded(a: nat, b: nat, k: nat)
    requires a < Pow2(k) && b < Pow2(k)
    ensures BitOr(a, b) < Pow2(k)
    decreases k
  {
    if k > 0 {
      OrBounded(a / 2, b / 2, k - 1);
    }
  }

  lemma Pow2Is32()
    ensures Pow2(32) == TWO32
  {
    Pow2Values();
    assert Pow2(24) == 0x100_0000;
    assert Pow2(28) == 0x1000_0000;
  }

  /** `|` on 32-bit words. */
  function Or32(a: u32, b: u32): u32 {
    Pow2Is32();
    OrBounded(a, b, 32);
    BitOr(a, b)
  }

  /** `| 2` sets bit 1 and nothing else. */
  lemma OrTwo(x: u32)
    ensures Or32(x, 2) == if x % 4 >= 2 then x else x + 2
  {
    hide BitOr;
    OrPair(x, 2);
    OrZero(x / 4);
    OrHalf(x % 4, 2);
    OrHalf(x % 4 / 2, 1);
    OrZero(0);
  }

  /** Bit k of a number. */
  predicate Bit(x: nat, k: nat)
    decreases k
  {
    if k == 0 then x % 2 == 1 else Bit(x / 2, k - 1)
  }

  /** `|` and `&` bit by bit. */
  lemma {:induction false} BitByBit(a: nat, b: nat, k: nat)
    ensures Bit(BitOr(a, b), k) <==> Bit(a, k) || Bit(b, k)
    ensures Bit(BitAnd(a, b), k) <==> Bit(a, k) && Bit(b, k)
    decreases k
  {
    hide BitOr, BitAnd;
    OrHalf(a, b);
    AndHalf(a, b);
    if k == 0 {
      Parity(BitOr(a / 2, b / 2), if a % 2 == 1 || b % 2 == 1 then 1 else 0);
      Parity(BitAnd(a / 2, b / 2), if a % 2 == 1 && b % 2 == 1 then 1 else 0);
    } else {
      assert BitOr(a, b) / 2 == BitOr(a / 2, b / 2) && BitAnd(a, b) / 2 == BitAnd(a / 2, b / 2);
      BitByBit(a / 2, b / 2, k - 1);
    }
  }

  /** `& 2` asks for bit 1. */
  lemma AndTwo(x: nat)
    ensures BitAnd(x, 2) != 0 <==> Bit(x, 1)
  {
    hide BitAnd;
    AndHalf(x, 2);
    AndHalf(x / 2, 1);
    AndZero(x / 2 / 2);
  }

  lemma {:induction false} AndZero(x: nat)
    ensures BitAnd(x, 0) == 0
    decreases x
  {
    if x > 0 {
      AndZero(x / 2);
    }
  }

  lemma AndHalf(x: nat, b: nat)
    ensures BitAnd(x, b) == 2 * BitAnd(x / 2, b / 2) + (if x % 2 == 1 && b % 2 == 1 then 1 else 0)
  {
  }

  lemma Parity(half: nat, low: nat)
    requires low < 2
    ensures (2 * half + low) % 2 == low
  {
  }

  /** ORing bits below the page size into a word keeps its frame; into a page base it adds them. */
  lemma OrFlags(word: u32, flags: u32)
    requires flags < PAGE_SIZE
    ensures Frame(Or32(word, flags)) == word - word % PAGE_SIZE
    ensures word % PAGE_SIZE == 0 ==> Or32(word, flags) == word + flags
  {
    OrTwelve(word, flags);
    OrZero(word / 4096);
  }

  /** The flag bits above the page offset are already set in the page number of this address. */
  predicate KeepsFrame(addr: u32, flags: u32) {
    BitOr(addr / 4096, flags / 4096) == addr / 4096
  }

  /** ORing any word into a page base keeps its frame exactly when the word's high bits are already set there. */
  lemma OrKeepsFrame(base: u32, flags: u32)
    requires base % PAGE_SIZE == 0
    ensures Frame(Or32(base, flags)) == base <==> KeepsFrame(base, flags)
    ensures Or32(base, flags) % PAGE_SIZE == flags % PAGE_SIZE
    ensures flags < PAGE_SIZE ==> KeepsFrame(base, flags)
  {
    OrTwelve(base, flags);
    OrZero(base / 4096);
  }

  /** `|` works on the offset in a page and on the page number separately. */
  lemma OrTwelve(x: nat, b: nat)
    ensures BitOr(x, b) / 4096 == BitOr(x / 4096, b / 4096)
    ensures x % 4096 == 0 ==> BitOr(x, b) == 4096 * BitOr(x / 4096, b / 4096) + b % 4096
  {
    hide BitOr;
    OrNibble(x, b);
    OrNibble(x / 16, b / 16);
    OrNibble(x / 16 / 16, b / 16 / 16);
    assert b / 16 / 16 / 16 == b / 4096 && x / 16 / 16 / 16 == x / 4096;
    if x % 4096 == 0 {
      assert x % 16 == 0 && x / 16 % 16 == 0 && x / 16 / 16 % 16 == 0;
    }
  }

  /** The least multiple of the page size at or above x, wrapped to 32 bits: what `heap_align_value_upper` and
      `paging_align_address` compute. */
  function AlignUp(x: u32): u32 {
    if x % 4096 == 0 then x else Wrap(x - x % 4096 + 4096)
  }

  /** Rounding up is exact below the last page and wraps to 0 inside it. */
  lemma AlignUpMeaning(x: u32)
    ensures AlignUp(x) % PAGE_SIZE == 0
    ensures x <= 0xFFFF_F000 ==> x <= AlignUp(x) < x + PAGE_SIZE
    ensures x > 0xFFFF_F000 ==> AlignUp(x) == 0
  {
  }
}
