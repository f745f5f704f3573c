/** Printing integers (`lib/xprintf.c`) and reading them back (`lib/libc.c`). */
module Decimal {
  import opened Libc

  const TWO_31 := 0x8000_0000
  const TWO_32 := 0x1_0000_0000

  const MINUS: byte := 45
  const PLUS: byte := 43
  const SPACE: byte := 32
  const ZERO: byte := 48

  /** A signed 32-bit result, with wrap-around. */
  function Int32(x: int): int { (x + TWO_31) % TWO_32 - TWO_31 }

  // ----- digits -----

  function DigitChar(d: int, smalls: bool): byte
    requires 0 <= d < 16
  {
    if d < 10 then ZERO + d else if smalls then 87 + d else 55 + d
  }

  /** The bases that the formats use. */
  predicate IsBase(base: nat) { base == 8 || base == 10 || base == 16 }

  function Div(n: nat, base: nat): (q: nat)
    requires IsBase(base)
    ensures n >= 1 ==> q < n
    ensures 8 * q <= n
    ensures q == 0 <==> n < base
  {
    if base == 8 then n / 8 else if base == 10 then n / 10 else n / 16
  }

  function Mod(n: nat, base: nat): (r: nat)
    requires IsBase(base)
    ensures r < base
    ensures base == 8 ==> 8 * Div(n, base) + r == n
    ensures base == 10 ==> 10 * Div(n, base) + r == n
    ensures base == 16 ==> 16 * Div(n, base) + r == n
  {
    if base == 8 then n % 8 else if base == 10 then n % 10 else n % 16
  }

  /** The digits of `n`, most significant first. */
  function Digits(n: nat, base: nat): (ds: seq<int>)
    requires IsBase(base)
    ensures ds != [] && forall i | 0 <= i < |ds| :: 0 <= ds[i] < base
    decreases n
  {
    if n < base then [n] else Digits(Div(n, base), base) + [Mod(n, base)]
  }

  function Times(base: nat, x: int): int
    requires IsBase(base)
  {
    if base == 8 then 8 * x else if base == 10 then 10 * x else 16 * x
  }

  /** The value that digits stand for. */
  function Value(ds: seq<int>, base: nat): int
    requires IsBase(base)
  {
    if ds == [] then 0 else Times(base, Value(ds[..|ds| - 1], base)) + ds[|ds| - 1]
  }

  /** The digits of a number stand for it. */
  lemma {:induction false} DigitsHaveValue(n: nat, base: nat)
    requires IsBase(base)
    ensures Value(Digits(n, base), base) == n
    decreases n
  {
    hide Div, Mod;
    if n >= base {
      DigitsHaveValue(Div(n, base), base);
      assert Digits(n, base)[..|Digits(n, base)| - 1] == Digits(Div(n, base), base);
    } else {
      assert [n][..0] == [];
    }
  }

  function Text(ds: seq<int>, smalls: bool): (s: seq<byte>)
    requires forall i | 0 <= i < |ds| :: 0 <= ds[i] < 16
    ensures |s| == |ds|
  {
    seq(|ds|, i requires 0 <= i < |ds| => DigitChar(ds[i], smalls))
  }

  function Pow8(k: nat): nat { if k == 0 then 1 else 8 * Pow8(k - 1) }

  lemma Pow8Of11()
    ensures TWO_32 <= Pow8(11)
  {
    assert Pow8(4) == 4096;
    assert Pow8(8) == 4096 * 4096 by { assert Pow8(6) == 64 * 4096; }
    assert Pow8(11) == 512 * Pow8(8);
  }

  /** Eleven places are enough for every 32-bit number in each of the bases. */
  lemma {:induction false} FewDigits(n: nat, base: nat, k: nat)
    requires IsBase(base) && n < Pow8(k) && k >= 1
    ensures |Digits(n, base)| <= k
    decreases n
  {
    hide Div, Mod;
    if n >= base {
      assert k >= 2;
      FewDigits(Div(n, base), base, k - 1);
    }
  }

  /** What `print_uint` is to print: the digits, zeros before them up to `prec` characters, spaces before
      those up to `width`, neither beyond 11. */
  function Padded(text: seq<byte>, c: byte, n: int): (s: seq<byte>)
    ensures |s| == if |text| < n then n else |text|
    ensures s[|s| - |text|..] == text
  {
    if |text| < n then seq(n - |text|, _ => c) + text else text
  }

  function Unsigned(n: nat, base: nat, smalls: bool, prec: int, width: int): seq<byte>
    requires IsBase(base)
  {
    Padded(Padded(Text(Digits(n, base), smalls), ZERO, Least(prec, 11)), SPACE, Least(width, 11))
  }

  // ----- reading unsigned output -----

  /** The digit that a character stands for, or -1. */
  function DigitOf(c: byte, smalls: bool): int {
    if 48 <= c <= 57 then c - 48
    else if smalls && 97 <= c <= 102 then c - 87
    else if !smalls && 65 <= c <= 70 then c - 55
    else -1
  }

  /** The number that characters stand for. */
  function NumberOf(s: seq<byte>, base: nat, smalls: bool): int
    requires IsBase(base)
  {
    if s == [] then 0 else Times(base, NumberOf(s[..|s| - 1], base, smalls)) + DigitOf(s[|s| - 1], smalls)
  }

  lemma {:induction false} TextIsNumber(ds: seq<int>, base: nat, smalls: bool)
    requires IsBase(base) && forall i | 0 <= i < |ds| :: 0 <= ds[i] < base
    ensures NumberOf(Text(ds, smalls), base, smalls) == Value(ds, base)
    ensures forall i | 0 <= i < |ds| :: DigitOf(Text(ds, smalls)[i], smalls) == ds[i]
  {
    hide Times;
    if ds != [] {
      TextIsNumber(ds[..|ds| - 1], base, smalls);
      assert Text(ds, smalls)[..|ds| - 1] == Text(ds[..|ds| - 1], smalls);
    }
  }

  lemma {:induction false} LeadingZeros(k: nat, s: seq<byte>, base: nat, smalls: bool)
    requires IsBase(base)
    ensures NumberOf(seq(k, _ => 48) + s, base, smalls) == NumberOf(s, base, smalls)
    decreases k + |s|
  {
    var zeros := seq(k, _ => 48);
    if s != [] {
      assert (zeros + s)[..|zeros + s| - 1] == zeros + s[..|s| - 1];
      LeadingZeros(k, s[..|s| - 1], base, smalls);
    } else if k > 0 {
      assert (zeros + s)[..k - 1] == seq(k - 1, _ => 48) + s;
      LeadingZeros(k - 1, s, base, smalls);
    } else {
      assert zeros + s == s;
    }
  }

  /** No number is printed with a zero in front, unless it is zero. */
  lemma {:induction false} NoLeadingZero(n: nat, base: nat)
    requires IsBase(base)
    ensures Digits(n, base)[0] == 0 ==> n == 0
    decreases n
  {
    hide Mod;
    if n >= base { NoLeadingZero(Div(n, base), base); }
  }

  function Most(a: int, b: int): (r: int)
    ensures r >= a && r >= b && (r == a || r == b)
  {
    if a > b then a else b
  }

  /** What `print_uint` puts out is blanks and then digits of the base, in the case asked for, that stand for the number:
      as many digits as it has, or the precision asks for up to eleven, and as many characters in all as these, or the
      width asks for up to eleven. */
  lemma UnsignedReadsBack(n: nat, base: nat, smalls: bool, prec: int, width: int)
    requires IsBase(base)
    ensures var s, digits := Unsigned(n, base, smalls, prec, width), Most(|Digits(n, base)|, Least(prec, 11));
            && |s| == Most(digits, Least(width, 11))
            && (forall i | 0 <= i < |s| - digits :: s[i] == 32)
            && (forall i | |s| - digits <= i < |s| :: 0 <= DigitOf(s[i], smalls) < base)
            && NumberOf(s[|s| - digits..], base, smalls) == n
  {
    hide Digits, NumberOf, Text, Padded, DigitOf;
    var ds := Digits(n, base);
    DigitsHaveValue(n, base);
    TextIsNumber(ds, base, smalls);
    ZeroFilled(Text(ds, smalls), Least(prec, 11), base, smalls);
    var filled := Padded(Text(ds, smalls), ZERO, Least(prec, 11));
    BlanksBefore(filled, Least(width, 11));
    var s := Unsigned(n, base, smalls, prec, width);
    forall i | |s| - |filled| <= i < |s| ensures 0 <= DigitOf(s[i], smalls) < base {
      assert s[|s| - |filled|..][i - (|s| - |filled|)] == s[i];
    }
  }

  lemma ZeroFilled(text: seq<byte>, p: int, base: nat, smalls: bool)
    requires IsBase(base) && forall i | 0 <= i < |text| :: 0 <= DigitOf(text[i], smalls) < base
    ensures var filled := Padded(text, ZERO, p);
            && |filled| == Most(|text|, p) && NumberOf(filled, base, smalls) == NumberOf(text, base, smalls)
            && forall i | 0 <= i < |filled| :: 0 <= DigitOf(filled[i], smalls) < base
  {
    hide NumberOf;
    if |text| < p { LeadingZeros(p - |text|, text, base, smalls); }
  }

  lemma BlanksBefore(text: seq<byte>, w: int)
    ensures var s := Padded(text, SPACE, w);
            && |s| == Most(|text|, w) && s[|s| - |text|..] == text && forall i | 0 <= i < |s| - |text| :: s[i] == 32
  {
  }

  // ----- the printing loops -----

  /** The first cells of `rev` hold `s` from its end. */
  predicate Reversed(rev: seq<byte>, s: seq<byte>) {
    |s| <= |rev| && forall k | 0 <= k < |s| :: rev[k] == s[|s| - 1 - k]
  }

  /** One more character at the end of the buffer is one more at the start of the text. */
  method Put(rev: array<byte>, i: nat, c: byte, ghost s: seq<byte>)
    requires i == |s| < rev.Length && Reversed(rev[..], s)
    modifies rev
    ensures Reversed(rev[..], [c] + s)
  {
    rev[i] := c;
    ghost var more := [c] + s;
    forall k | 0 <= k < |more| ensures rev[..][k] == more[|more| - 1 - k] {
      if k < |s| { assert more[|more| - 1 - k] == s[|s| - 1 - k]; }
    }
  }

  lemma NextDigit(n: nat, base: nat, ds: seq<int>, tail: seq<int>)
    requires IsBase(base) && ds == Digits(n, base) + tail
    ensures if Div(n, base) == 0 then ds == [Mod(n, base)] + tail
            else ds == Digits(Div(n, base), base) + ([Mod(n, base)] + tail)
  {
    hide Div, Mod;
  }

  lemma TextCons(d: int, tail: seq<int>, smalls: bool)
    requires 0 <= d < 16 && forall i | 0 <= i < |tail| :: 0 <= tail[i] < 16
    ensures forall i | 0 <= i < |[d] + tail| :: 0 <= ([d] + tail)[i] < 16
    ensures Text([d] + tail, smalls) == [DigitChar(d, smalls)] + Text(tail, smalls)
  {
  }

  /** The digit loop of `print_uint`; the eleven bytes of `rev` are never exceeded. */
  method CollectDigits(rev: array<byte>, number: nat, base: nat, smalls: bool) returns (i: nat)
    requires IsBase(base) && number < TWO_32 && rev.Length == 11
    modifies rev
    ensures i == |Digits(number, base)| <= 11 && Reversed(rev[..], Text(Digits(number, base), smalls))
  {
    hide Div, Mod, Digits, Text, DigitChar, Reversed;
    ghost var ds, tail: seq<int> := Digits(number, base), [];
    Pow8Of11();
    FewDigits(number, base, 11);
    assert ds + [] == ds;
    NothingReversed(rev[..], smalls);
    var n := number;
    i := 0;
    while true
      invariant ds == Digits(n, base) + tail && i == |tail| && forall k | 0 <= k < |tail| :: 0 <= tail[k] < base
      invariant Reversed(rev[..], Text(tail, smalls))
      decreases n
    {
      NextDigit(n, base, ds, tail);
      TextCons(Mod(n, base), tail, smalls);
      Put(rev, i, DigitChar(Mod(n, base), smalls), Text(tail, smalls));
      tail := [Mod(n, base)] + tail;
      i := i + 1;
      n := Div(n, base);
      if n == 0 {
        break;
      }
    }
  }

  lemma NothingReversed(rev: seq<byte>, smalls: bool)
    ensures Reversed(rev, Text([], smalls))
  {
  }

  lemma PaddedMore(text: seq<byte>, c: byte, i: nat)
    requires i >= |text|
    ensures Padded(text, c, i + 1) == [c] + Padded(text, c, i)
  {
  }

  /** One of the padding loops of `print_uint`. */
  method PadTo(rev: array<byte>, start: nat, c: byte, n: int, ghost text: seq<byte>) returns (i: nat)
    requires n <= rev.Length && start == |text| && Reversed(rev[..], text)
    modifies rev
    ensures i == |Padded(text, c, n)| && Reversed(rev[..], Padded(text, c, n))
  {
    hide Reversed, Padded;
    i := start;
    NotPadded(text, c);
    while i < n
      invariant start <= i && (i <= n || i == start) && |Padded(text, c, i)| == i && Reversed(rev[..], Padded(text, c, i))
    {
      PaddedMore(text, c, i);
      Put(rev, i, c, Padded(text, c, i));
      i := i + 1;
    }
    PaddedEnough(text, c, n, i);
  }

  lemma NotPadded(text: seq<byte>, c: byte)
    ensures Padded(text, c, |text|) == text
  {
  }

  lemma PaddedEnough(text: seq<byte>, c: byte, n: int, i: nat)
    requires i == |text| >= n || (|text| <= i == n)
    ensures Padded(text, c, n) == Padded(text, c, i)
  {
  }

  /** The output loop of `print_uint`. */
  method Emit(buf: array<byte>, at: nat, size: nat, rev: array<byte>, count: nat, ghost text: seq<byte>) returns (written: nat)
    requires at + size <= buf.Length && buf != rev && count == |text| && Reversed(rev[..], text)
    modifies buf
    ensures written == Least(size, |text|) && buf[..] == Overwritten(old(buf[..]), at, text[..written])
  {
    written := 0;
    var i := count - 1;
    while i >= 0 && written < size
      invariant 0 <= written <= size && written <= |text| && i == |text| - 1 - written
      invariant forall k | 0 <= k < buf.Length :: buf[k] == if at <= k < at + written then text[k - at] else old(buf[k])
    {
      buf[at + written] := rev[i];
      written := written + 1;
      i := i - 1;
    }
  }

  /** `print_uint`. */
  method PrintUint(buf: array<byte>, at: nat, size: int, n: nat, base: nat, smalls: bool, prec: int, width: int) returns (written: int)
    requires IsBase(base) && n < TWO_32 && at + size <= buf.Length && at <= buf.Length
    modifies buf
    ensures size <= 0 ==> written == 0 && buf[..] == old(buf[..])
    ensures size > 0 ==>
              && written == Least(size, |Unsigned(n, base, smalls, prec, width)|)
              && at + written <= buf.Length
              && buf[..] == Overwritten(old(buf[..]), at, Unsigned(n, base, smalls, prec, width)[..written])
  {
    hide Reversed, Padded, Text, Digits, Overwritten;
    if size <= 0 {
      return 0;
    }
    var rev := new byte[11];
    var i := CollectDigits(rev, n, base, smalls);
    ghost var text := Text(Digits(n, base), smalls);
    i := PadTo(rev, i, ZERO, Least(prec, 11), text);
    text := Padded(text, ZERO, Least(prec, 11));
    i := PadTo(rev, i, SPACE, Least(width, 11), text);
    text := Padded(text, SPACE, Least(width, 11));
    written := Emit(buf, at, size, rev, i, text);
  }

  // ----- signed numbers -----

  /** What stands before the digits besides a minus: the flag characters of `%+d` and `% d`. */
  datatype Flag = NoFlag | SignFlag | SpaceFlag

  function FlagText(flag: Flag): seq<byte> {
    match flag
    case NoFlag => []
    case SignFlag => [PLUS]
    case SpaceFlag => [SPACE]
  }

  function Abs(n: int): nat { if n < 0 then -n else n }

  /** The output of the `%d` conversion. The flag is printed after a minus sign as well. */
  function Signed(n: int, flag: Flag): seq<byte> { SignText(n, flag) + Text(Digits(Abs(n), 10), false) }

  function SignText(n: int, flag: Flag): seq<byte> { (if n < 0 then [MINUS] else []) + FlagText(flag) }

  /** Negating wraps around at the smallest number, whose bit pattern read without sign is right. */
  lemma NegatedPattern(n: int)
    requires -TWO_31 <= n < TWO_31
    ensures (if n < 0 then Int32(-n) else n) % TWO_32 == Abs(n)
  {
  }

  lemma PlainUnsigned(n: nat)
    ensures Unsigned(n, 10, false, 0, 0) == Text(Digits(n, 10), false)
  {
    hide Text, Digits;
  }

  /** One byte stored at a distance from the start of the buffer. */
  datatype Store = Store(index: int, value: byte)

  function StoresOf(text: seq<byte>): seq<Store> {
    seq(|text|, i requires 0 <= i < |text| => Store(i, text[i]))
  }

  /** The characters that `%d` puts out before the final NUL: the sign without a look at the size, then as many
      digits as the size still allows. */
  function Shown(n: int, flag: Flag, size: int): seq<byte> {
    var sign, digits := SignText(n, flag), Text(Digits(Abs(n), 10), false);
    sign + if size - |sign| <= 0 then [] else digits[..Least(size - |sign|, |digits|)]
  }

  /** Where the final NUL goes, and what is returned. */
  function NulAt(shown: nat, size: int): int { if shown == size then size - 1 else shown }

  function Result(shown: nat, size: int): int { if shown == size then -1 else shown }

  /** Every store that `snprintf(buf, size, "%d", n)` makes, in order. */
  function Trace(n: int, flag: Flag, size: int): seq<Store> {
    if size <= 0 then []
    else StoresOf(Shown(n, flag, size)) + [Store(NulAt(|Shown(n, flag, size)|, size), 0)]
  }

  predicate Inside(trace: seq<Store>, size: int) { forall i | 0 <= i < |trace| :: 0 <= trace[i].index < size }

  /** The memory after the stores. */
  function Apply(memory: seq<byte>, trace: seq<Store>): (r: seq<byte>)
    requires Inside(trace, |memory|)
    ensures |r| == |memory|
  {
    if trace == [] then memory
    else Apply(memory, trace[..|trace| - 1])[trace[|trace| - 1].index := trace[|trace| - 1].value]
  }

  lemma ShownLength(n: int, flag: Flag, size: int)
    ensures |SignText(n, flag)| <= size ==> |Shown(n, flag, size)| == Least(size, |Signed(n, flag)|)
    ensures |SignText(n, flag)| > size ==> Shown(n, flag, size) == SignText(n, flag)
    ensures Shown(n, flag, size) <= Signed(n, flag)
  {
    hide Text, Digits;
  }

  /** Nothing is stored at or beyond the size if and only if the sign characters fit into it. */
  lemma StaysInBufferIff(n: int, flag: Flag, size: int)
    requires size > 0
    ensures Inside(Trace(n, flag, size), size) <==> |SignText(n, flag)| <= size
  {
    hide Shown, Signed;
    ShownLength(n, flag, size);
    var trace, shown := Trace(n, flag, size), |Shown(n, flag, size)|;
    assert trace[|trace| - 1].index == NulAt(shown, size);
  }

  /** A buffer of one byte and `%+d` of -1: three bytes are stored, and 2 comes back. */
  lemma OverrunExample()
    ensures Trace(-1, SignFlag, 1) == [Store(0, MINUS), Store(1, PLUS), Store(2, 0)]
    ensures Result(|Shown(-1, SignFlag, 1)|, 1) == 2 && !Inside(Trace(-1, SignFlag, 1), 1)
  {
    assert SignText(-1, SignFlag) == [MINUS, PLUS];
    ShownLength(-1, SignFlag, 1);
    assert Trace(-1, SignFlag, 1)[2].index == 2;
  }

  lemma {:induction false} ApplyStores(memory: seq<byte>, text: seq<byte>)
    requires |text| <= |memory|
    ensures Inside(StoresOf(text), |memory|) && Apply(memory, StoresOf(text)) == Overwritten(memory, 0, text)
  {
    if text != [] {
      var most := text[..|text| - 1];
      ApplyStores(memory, most);
      assert StoresOf(text)[..|text| - 1] == StoresOf(most);
    }
  }

  /** The memory that the conversion leaves. */
  lemma ApplyTrace(memory: seq<byte>, n: int, flag: Flag, size: int)
    requires size > 0 && Inside(Trace(n, flag, size), |memory|)
    ensures var shown := Shown(n, flag, size);
            && |shown| <= |memory| && 0 <= NulAt(|shown|, size) < |memory|
            && Apply(memory, Trace(n, flag, size)) == Overwritten(memory, 0, shown)[NulAt(|shown|, size) := 0]
  {
    hide Shown, Overwritten;
    var trace, shown := Trace(n, flag, size), Shown(n, flag, size);
    var last := |trace| - 1;
    assert trace[last] == Store(NulAt(|shown|, size), 0) && trace[..last] == StoresOf(shown);
    if shown != [] { assert trace[|shown| - 1].index == |shown| - 1; }
    ApplyStores(memory, shown);
  }

  /** When the sign characters fit, the buffer holds the whole text and a NUL, or as much as fits before the NUL,
      and the bytes behind the buffer are untouched. */
  lemma FormattedText(memory: seq<byte>, n: int, flag: Flag, size: int)
    requires 0 < size <= |memory| && |SignText(n, flag)| <= size
    ensures Inside(Trace(n, flag, size), |memory|)
    ensures var after, text, r := Apply(memory, Trace(n, flag, size)), Signed(n, flag), Result(|Shown(n, flag, size)|, size);
            && (|text| < size ==> r == |text| && after[..|text| + 1] == text + [0])
            && (|text| >= size ==> r == -1 && after[..size] == text[..size - 1] + [0])
            && after[size..] == memory[size..]
  {
    hide Shown, Signed, SignText, Trace, Apply, Overwritten;
    StaysInBufferIff(n, flag, size);
    WithinMemory(Trace(n, flag, size), size, |memory|);
    ShownLength(n, flag, size);
    ApplyTrace(memory, n, flag, size);
    TextThenNul(memory, Signed(n, flag), Shown(n, flag, size), size);
  }

  lemma WithinMemory(trace: seq<Store>, size: int, length: int)
    requires Inside(trace, size) && size <= length
    ensures Inside(trace, length)
  {
  }

  lemma TextThenNul(memory: seq<byte>, text: seq<byte>, shown: seq<byte>, size: int)
    requires 0 < size <= |memory| && shown <= text && |shown| == Least(size, |text|)
    ensures var after := Overwritten(memory, 0, shown)[NulAt(|shown|, size) := 0];
            && (|text| < size ==> after[..|text| + 1] == text + [0])
            && (|text| >= size ==> after[..size] == text[..size - 1] + [0])
            && after[size..] == memory[size..]
  {
    if |text| < size { assert shown == text; }
  }

  /** The first part of the `%d` conversion. */
  method PutSign(buf: array<byte>, n: int, flag: Flag) returns (written: nat, arg: int)
    requires -TWO_31 <= n < TWO_31 && |SignText(n, flag)| <= buf.Length
    modifies buf
    ensures written == |SignText(n, flag)| && arg % TWO_32 == Abs(n)
    ensures buf[..] == Overwritten(old(buf[..]), 0, SignText(n, flag))
  {
    NegatedPattern(n);
    written, arg := 0, n;
    if arg < 0 {
      buf[written] := MINUS;
      written := written + 1;
      arg := Int32(-arg);
    }
    if flag == SignFlag {
      buf[written] := PLUS;
      written := written + 1;
    } else if flag == SpaceFlag {
      buf[written] := SPACE;
      written := written + 1;
    }
  }

  /** `snprintf(buf, size, "%d", n)`, with or without a flag. `buf` is the memory from the buffer on; it reaches as
      far as the stores do, which may be beyond `size`: see `StaysInBufferIff`. */
  method FormatSigned(buf: array<byte>, size: int, n: int, flag: Flag) returns (r: int)
    requires -TWO_31 <= n < TWO_31 && size <= buf.Length && Inside(Trace(n, flag, size), buf.Length)
    modifies buf
    ensures buf[..] == Apply(old(buf[..]), Trace(n, flag, size))
    ensures r == if size <= 0 then 0 else Result(|Shown(n, flag, size)|, size)
  {
    hide Text, Digits, Unsigned, SignText, Overwritten, Trace, Apply;
    if size <= 0 {
      NoStores(buf[..], n, flag, size);
      return 0;
    }
    ghost var was := buf[..];
    ApplyTrace(was, n, flag, size);
    var written, arg := PutSign(buf, n, flag);
    PlainUnsigned(Abs(n));
    ghost var digits := Text(Digits(Abs(n), 10), false);
    var w := PrintUint(buf, written, size - written, arg % TWO_32, 10, false, 0, 0);
    StoresJoin(was, SignText(n, flag), digits[..w]);
    written := written + w;
    if written == size {
      buf[size - 1] := 0;
      written := -1;
    } else {
      buf[written] := 0;
    }
    return written;
  }

  lemma NoStores(memory: seq<byte>, n: int, flag: Flag, size: int)
    requires size <= 0
    ensures Trace(n, flag, size) == [] && Apply(memory, []) == memory
  {
  }

  lemma StoresJoin(memory: seq<byte>, a: seq<byte>, b: seq<byte>)
    requires |a| + |b| <= |memory|
    ensures Overwritten(Overwritten(memory, 0, a), |a|, b) == Overwritten(memory, 0, a + b)
    ensures b == [] ==> Overwritten(memory, 0, a) == Overwritten(memory, 0, a + b)
  {
    if b == [] { assert a + b == a; }
  }

  // ----- reading -----

  predicate Blank(c: byte) { c == 32 || c == 9 || c == 13 || c == 10 }

  predicate IsDigit(c: byte) { 48 <= c <= 57 }

  function SkipBlanks(s: seq<byte>): seq<byte> { if s != [] && Blank(s[0]) then SkipBlanks(s[1..]) else s }

  /** Digits up to the first other character, with 32-bit wrap-around. */
  function Parse(s: seq<byte>, value: int, sign: int): int {
    if s == [] || !IsDigit(s[0]) then value else Parse(s[1..], Int32(10 * value + sign * (s[0] - 48)), sign)
  }

  /** What `atoi` makes of a string. */
  function AtoiOf(s: seq<byte>): int {
    var t := SkipBlanks(s);
    if t == [] then 0
    else if t[0] == MINUS then Parse(t[1..], 0, -1)
    else if t[0] == PLUS then Parse(t[1..], 0, 1)
    else Parse(t, 0, 1)
  }

  /** `atoi` of the string that `s` holds. */
  method Atoi(s: seq<byte>) returns (value: int)
    requires 0 in s
    ensures value == AtoiOf(CString(s))
  {
    hide CString, Int32;
    ghost var text := CString(s);
    TextFacts(s);
    var sign: int, i := 1, 0;
    value := 0;
    assert text[0..] == text;
    while s[i] != 0 && Blank(s[i])
      invariant 0 <= i <= |text| && SkipBlanks(text[i..]) == SkipBlanks(text)
      decreases |text| - i
    {
      assert text[i..][1..] == text[i + 1..];
      i := i + 1;
    }
    if s[i] == 0 {
      return 0;
    }
    ghost var rest := text[i..];
    if s[i] == MINUS {
      sign := -1;
      i := i + 1;
    } else if s[i] == PLUS {
      i := i + 1;
    }
    assert rest[1..] == text[|text| - |rest| + 1..];
    while IsDigit(s[i])
      invariant 0 <= i <= |text| && Parse(text[i..], value, sign) == AtoiOf(text)
      decreases |text| - i
    {
      assert text[i..][1..] == text[i + 1..];
      value := Int32(10 * value + sign * (s[i] - 48));
      i := i + 1;
    }
  }

  /** The running value after the digits `ds`. */
  function Fold(ds: seq<int>, sign: int): int {
    if ds == [] then 0 else Int32(10 * Fold(ds[..|ds| - 1], sign) + sign * ds[|ds| - 1])
  }

  lemma {:induction false} ParseConcat(ds: seq<int>, more: seq<byte>, sign: int)
    requires forall i | 0 <= i < |ds| :: 0 <= ds[i] < 10
    ensures Parse(Text(ds, false) + more, 0, sign) == Parse(more, Fold(ds, sign), sign)
  {
    hide Int32;
    if ds == [] {
      assert Text(ds, false) + more == more;
    } else {
      var most, d := ds[..|ds| - 1], ds[|ds| - 1];
      var c := DigitChar(d, false);
      ParseConcat(most, [c] + more, sign);
      assert Text(ds, false) + more == Text(most, false) + ([c] + more);
      assert ([c] + more)[1..] == more && c - 48 == d;
    }
  }

  /** The digits of a number that is in range fold to it without wrapping. */
  lemma {:induction false} FoldDigits(n: nat, sign: int)
    requires (sign == 1 && n < TWO_31) || (sign == -1 && n <= TWO_31)
    ensures Fold(Digits(n, 10), sign) == sign * n
    decreases n
  {
    hide Digits, Int32;
    if n >= 10 {
      FoldDigits(n / 10, sign);
      DigitsOfTens(n);
      InRange(n, sign);
    } else {
      DigitsOfOne(n);
      InRange(n, sign);
    }
  }

  lemma DigitsOfTens(n: nat)
    requires n >= 10
    ensures Digits(n, 10)[..|Digits(n, 10)| - 1] == Digits(n / 10, 10) && Digits(n, 10)[|Digits(n, 10)| - 1] == n % 10
  {
  }

  lemma DigitsOfOne(n: nat)
    requires n < 10
    ensures Digits(n, 10) == [n] && [n][..0] == []
  {
  }

  lemma InRange(n: nat, sign: int)
    requires (sign == 1 && n < TWO_31) || (sign == -1 && n <= TWO_31)
    ensures Int32(10 * (sign * (n / 10)) + sign * (n % 10)) == sign * n && Int32(10 * 0 + sign * n) == sign * n
  {
  }

  lemma ParseDigits(n: nat, sign: int)
    requires (sign == 1 && n < TWO_31) || (sign == -1 && n <= TWO_31)
    ensures Parse(Text(Digits(n, 10), false), 0, sign) == sign * n
  {
    hide Parse, Text, Digits, Fold;
    ParseConcat(Digits(n, 10), [], sign);
    FoldDigits(n, sign);
    assert Text(Digits(n, 10), false) + [] == Text(Digits(n, 10), false);
    ParseNothing(Fold(Digits(n, 10), sign), sign);
  }

  lemma ParseNothing(value: int, sign: int)
    ensures Parse([], value, sign) == value
  {
  }

  /** What is printed is read back, for every 32-bit number: always for `%d`, and with a flag exactly when the
      number is not negative, because the flag character then separates the minus from the digits. */
  lemma RoundTripIff(n: int, flag: Flag)
    requires -TWO_31 <= n < TWO_31
    ensures AtoiOf(Signed(n, flag)) == n <==> flag == NoFlag || n >= 0
  {
    hide Parse, Digits, Text;
    var digits := Text(Digits(Abs(n), 10), false);
    FirstIsDigit(Abs(n));
    ParseDigits(Abs(n), if n < 0 then -1 else 1);
    var s := Signed(n, flag);
    if n < 0 {
      assert s[0] == MINUS && s[1..] == FlagText(flag) + digits;
      if flag == NoFlag {
        assert s[1..] == digits;
      } else {
        FlagStops(flag, digits, -1);
      }
    } else if flag == SignFlag {
      assert s[1..] == digits;
    } else if flag == SpaceFlag {
      assert s[1..] == digits && SkipBlanks(digits) == digits;
    } else {
      assert s == digits;
    }
  }

  lemma FirstIsDigit(n: nat)
    ensures Text(Digits(n, 10), false) != [] && IsDigit(Text(Digits(n, 10), false)[0])
  {
    hide Digits;
  }

  lemma FlagStops(flag: Flag, digits: seq<byte>, sign: int)
    requires flag != NoFlag
    ensures Parse(FlagText(flag) + digits, 0, sign) == 0
  {
  }

  // ----- any string -----

  lemma {:induction false} BlanksSkipped(blanks: seq<byte>, s: seq<byte>)
    requires forall i | 0 <= i < |blanks| :: blanks[i] in {32, 9, 13, 10}
    ensures SkipBlanks(blanks + s) == SkipBlanks(s)
    decreases |blanks|
  {
    if blanks == [] {
      assert blanks + s == s;
    } else {
      assert (blanks + s)[1..] == blanks[1..] + s;
      BlanksSkipped(blanks[1..], s);
    }
  }

  lemma Int32Step(x: int, d: int)
    ensures Int32(10 * Int32(x) + d) == Int32(10 * x + d)
  {
    var q := (x + TWO_31) / TWO_32;
    assert Int32(x) == x - TWO_32 * q;
    Int32Shift(10 * x + d, 10 * q);
  }

  lemma Int32Shift(x: int, q: int)
    ensures Int32(x - TWO_32 * q) == Int32(x)
  {
    var r, p := (x + TWO_31) % TWO_32, (x + TWO_31) / TWO_32;
    assert x - TWO_32 * q + TWO_31 == TWO_32 * (p - q) + r;
  }

  lemma {:induction false} FoldIsValue(ds: seq<int>, sign: int)
    requires sign == 1 || sign == -1
    ensures Fold(ds, sign) == Int32(sign * Value(ds, 10))
  {
    hide Int32;
    if ds == [] {
      Int32OfZero();
    } else {
      var most, d := ds[..|ds| - 1], ds[|ds| - 1];
      FoldIsValue(most, sign);
      Int32Step(sign * Value(most, 10), sign * d);
      assert 10 * (sign * Value(most, 10)) + sign * d == sign * (10 * Value(most, 10) + d);
    }
  }

  lemma Int32OfZero()
    ensures Int32(0) == 0
  {
  }

  /** Of a string of blanks, at most one sign, digits, and then anything that is no digit, `atoi` makes the number that the
      digits stand for, reduced to 32 bits; of no digits, zero. `EveryString` shows that all strings are of this form. */
  lemma AtoiReads(blanks: seq<byte>, sign: seq<byte>, ds: seq<int>, rest: seq<byte>)
    requires forall i | 0 <= i < |blanks| :: blanks[i] in {32, 9, 13, 10}
    requires forall i | 0 <= i < |ds| :: 0 <= ds[i] < 10
    requires sign in {[], [45], [43]} && (rest != [] ==> !(48 <= rest[0] <= 57))
    requires sign == [] && ds == [] && rest != [] ==> rest[0] !in {32, 9, 13, 10, 45, 43}
    ensures AtoiOf(blanks + (sign + (Text(ds, false) + rest))) == Int32((if sign == [45] then -1 else 1) * Value(ds, 10))
  {
    hide Int32, Value, Parse, Fold, Text, SkipBlanks;
    var number, factor := Text(ds, false) + rest, if sign == [45] then -1 else 1;
    BlanksSkipped(blanks, sign + number);
    ParseConcat(ds, rest, factor);
    ParseStops(rest, Fold(ds, factor), factor);
    FoldIsValue(ds, factor);
    if number == [] { NoDigits(ds, rest, factor); }
    SignTaken(blanks + (sign + number), sign, number, ds, rest);
  }

  lemma SignTaken(s: seq<byte>, sign: seq<byte>, number: seq<byte>, ds: seq<int>, rest: seq<byte>)
    requires forall i | 0 <= i < |ds| :: 0 <= ds[i] < 10
    requires sign in {[], [45], [43]} && number == Text(ds, false) + rest && SkipBlanks(s) == SkipBlanks(sign + number)
    requires sign == [] && ds == [] && rest != [] ==> rest[0] !in {32, 9, 13, 10, 45, 43}
    ensures AtoiOf(s) == if sign == [] && number == [] then 0 else Parse(number, 0, if sign == [45] then -1 else 1)
  {
    hide Parse, Text;
    if sign == [] {
      assert sign + number == number;
      NumberBegins(ds, rest);
    } else {
      assert (sign + number)[1..] == number;
    }
  }

  lemma ParseStops(rest: seq<byte>, value: int, sign: int)
    requires rest != [] ==> !(48 <= rest[0] <= 57)
    ensures Parse(rest, value, sign) == value
  {
  }

  lemma NumberBegins(ds: seq<int>, rest: seq<byte>)
    requires forall i | 0 <= i < |ds| :: 0 <= ds[i] < 10
    requires ds == [] && rest != [] ==> rest[0] !in {32, 9, 13, 10, 45, 43}
    ensures var s := Text(ds, false) + rest; s != [] ==> s[0] !in {32, 9, 13, 10, 45, 43}
  {
  }

  lemma NoDigits(ds: seq<int>, rest: seq<byte>, sign: int)
    requires (forall i | 0 <= i < |ds| :: 0 <= ds[i] < 10) && Text(ds, false) + rest == []
    ensures Fold(ds, sign) == 0
  {
    assert |Text(ds, false)| == |ds|;
  }

  lemma {:induction false} LeadingDigits(s: seq<byte>) returns (ds: seq<int>, rest: seq<byte>)
    ensures (forall i | 0 <= i < |ds| :: 0 <= ds[i] < 10) && (rest != [] ==> !(48 <= rest[0] <= 57))
    ensures Text(ds, false) + rest == s
    decreases |s|
  {
    if s != [] && 48 <= s[0] <= 57 {
      ds, rest := LeadingDigits(s[1..]);
      TextCons(s[0] - 48, ds, false);
      ds := [s[0] - 48] + ds;
    } else {
      ds, rest := [], s;
      assert Text([], false) + s == s;
    }
  }

  lemma {:induction false} EveryString(s: seq<byte>) returns (blanks: seq<byte>, sign: seq<byte>, ds: seq<int>, rest: seq<byte>)
    ensures forall i | 0 <= i < |blanks| :: blanks[i] in {32, 9, 13, 10}
    ensures forall i | 0 <= i < |ds| :: 0 <= ds[i] < 10
    ensures sign in {[], [45], [43]} && (rest != [] ==> !(48 <= rest[0] <= 57))
    ensures sign == [] && ds == [] && rest != [] ==> rest[0] !in {32, 9, 13, 10, 45, 43}
    ensures s == blanks + (sign + (Text(ds, false) + rest))
    decreases |s|
  {
    hide Text;
    if s != [] && s[0] in {32, 9, 13, 10} {
      blanks, sign, ds, rest := EveryString(s[1..]);
      blanks := [s[0]] + blanks;
    } else {
      blanks, sign := [], if s != [] && (s[0] == 45 || s[0] == 43) then [s[0]] else [];
      ds, rest := LeadingDigits(s[|sign|..]);
      assert ds == [] ==> Text(ds, false) == [] by { NoText(); }
    }
  }

  lemma NoText()
    ensures Text([], false) == []
  {
  }
}
