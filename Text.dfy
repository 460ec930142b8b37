/** Integer-to-text conversion: the digit alphabet, itoa with its static buffer, and
    longToChar writing backwards through a pointer. */
module Text {
  import opened Common

  /** The character for digit d: '0'..'9', then 'A'..'F'. */
  function DigitChar(d: nat): (c: char)
    requires d < 16
    ensures c != Nul
  {
    if d < 10 then ('0' as int + d) as char else ('A' as int + d - 10) as char
  }

  /** The value of a digit character; 16 for a character that is not a digit. */
  function DigitValue(c: char): (d: nat)
    ensures d <= 16
  {
    if '0' <= c <= '9' then c as int - '0' as int
    else if 'A' <= c <= 'F' then c as int - 'A' as int + 10
    else 16
  }

  lemma DigitValueOfChar(d: nat)
    requires d < 16
    ensures DigitValue(DigitChar(d)) == d
  {
  }

  lemma DigitCharOfValue(c: char)
    requires DigitValue(c) < 16
    ensures DigitChar(DigitValue(c)) == c
  {
  }

  /** The base-b digits of v, most significant first, with no leading zero; empty for 0. */
  function BaseDigits(v: nat, b: nat): (s: string)
    requires 2 <= b <= 16
    ensures |s| == 0 <==> v == 0
    decreases v
  {
    if v == 0 then [] else BaseDigits(v / b, b) + [DigitChar(v % b)]
  }

  /** Every character of the digit string is a base-b digit, and the first is not '0'. */
  lemma {:induction false} BaseDigitsWellFormed(v: nat, b: nat)
    requires 2 <= b <= 16
    ensures forall i :: 0 <= i < |BaseDigits(v, b)| ==> DigitValue(BaseDigits(v, b)[i]) < b
    ensures v > 0 ==> BaseDigits(v, b)[0] != '0'
    decreases v
  {
    if v > 0 {
      var q, d := v / b, v % b;
      var front := BaseDigits(q, b);
      assert q < v && d < b && BaseDigits(v, b) == front + [DigitChar(d)] by {
        DivMod(v, b);
        BaseDigitsLast(v, b);
      }
      assert q == 0 ==> d == v by {
        DivMod(v, b);
      }
      BaseDigitsWellFormed(q, b);
      DigitValueOfChar(d);
      DigitsAppend(front, DigitChar(d), b);
    }
  }

  /** Appending a digit to a digit string gives a digit string with the same first digit. */
  lemma DigitsAppend(front: string, c: char, b: nat)
    requires forall i :: 0 <= i < |front| ==> DigitValue(front[i]) < b
    requires DigitValue(c) < b
    ensures forall i :: 0 <= i < |front + [c]| ==> DigitValue((front + [c])[i]) < b
    ensures (front + [c])[0] == if front == [] then c else front[0]
  {
  }

  /** What longToChar writes: the digits of v, or a single '0' for 0. */
  function Numeral(v: nat, b: nat): (s: string)
    requires 2 <= b <= 16
    ensures |s| > 0 && (v < b ==> s == [DigitChar(v)])
  {
    if v == 0 then "0"
    else
      SingleDigit(v, b);
      BaseDigits(v, b)
  }

  /** A value below the base is its own last digit and leaves no quotient. */
  lemma SingleDigit(v: nat, b: nat)
    requires b >= 2
    ensures v < b ==> v / b == 0 && v % b == v
  {
  }

  /** Reading a digit string back in base b. */
  function ParseDigits(s: string, b: nat): nat
  {
    if s == [] then 0 else ParseDigits(s[..|s| - 1], b) * b + DigitValue(s[|s| - 1])
  }

  lemma DivMod(v: nat, b: nat)
    requires b > 0
    ensures v == (v / b) * b + v % b && 0 <= v % b < b
    ensures b >= 2 && v > 0 ==> v / b < v
  {
  }

  lemma ParseAppend(s: string, c: char, b: nat)
    ensures ParseDigits(s + [c], b) == ParseDigits(s, b) * b + DigitValue(c)
  {
    assert (s + [c])[..|s|] == s;
  }

  function Pow(b: nat, k: nat): nat
  {
    if k == 0 then 1 else b * Pow(b, k - 1)
  }

  /** The last digit of v and the digits of v / b. */
  lemma BaseDigitsLast(v: nat, b: nat)
    requires 2 <= b <= 16 && v > 0
    ensures v / b < v
    ensures BaseDigits(v, b) == BaseDigits(v / b, b) + [DigitChar(v % b)]
    ensures ParseDigits(BaseDigits(v, b), b) == ParseDigits(BaseDigits(v / b, b), b) * b + v % b
  {
    DivMod(v, b);
    ParseAppend(BaseDigits(v / b, b), DigitChar(v % b), b);
    DigitValueOfChar(v % b);
  }

  /** Every character longToChar writes is a base-b digit. */
  lemma NumeralWellFormed(v: nat, b: nat)
    requires 2 <= b <= 16
    ensures forall i :: 0 <= i < |Numeral(v, b)| ==> DigitValue(Numeral(v, b)[i]) < b
  {
    BaseDigitsWellFormed(v, b);
  }

  /** Reading the digits back yields the number. */
  lemma {:induction false} ParseBaseDigits(v: nat, b: nat)
    requires 2 <= b <= 16
    ensures ParseDigits(BaseDigits(v, b), b) == v
    decreases v
  {
    if v > 0 {
      var q, r := v / b, v % b;
      assert v == q * b + r && 0 <= q < v by {
        DivMod(v, b);
      }
      ParseBaseDigits(q, b);
      calc {
        ParseDigits(BaseDigits(v, b), b);
        { BaseDigitsLast(v, b); }
        ParseDigits(BaseDigits(q, b), b) * b + r;
        q * b + r;
      }
    }
  }

  /** The text longToChar writes parses back to the number. */
  lemma ParseNumeral(v: nat, b: nat)
    requires 2 <= b <= 16
    ensures ParseDigits(Numeral(v, b), b) == v
  {
    if v == 0 {
      assert Numeral(v, b)[..0] == [];
    } else {
      ParseBaseDigits(v, b);
    }
  }

  /** A digit string whose first digit is not zero has a positive value. */
  lemma {:induction false} ParsePositive(s: string, b: nat)
    requires 2 <= b <= 16 && |s| > 0
    requires forall i :: 0 <= i < |s| ==> DigitValue(s[i]) < b
    requires s[0] != '0'
    ensures ParseDigits(s, b) > 0
    decreases |s|
  {
    if |s| > 1 {
      var init := s[..|s| - 1];
      assert init[0] == s[0];
      ParsePositive(init, b);
    } else {
      assert s[..|s| - 1] == [];
    }
  }

  /** Dividing p * b + d by b, for a digit d < b, gives back p and d. */
  lemma DivModOfDigit(p: nat, d: nat, b: nat)
    requires d < b
    ensures (p * b + d) / b == p && (p * b + d) % b == d
  {
    var n := p * b + d;
    var q, r := n / b, n % b;
    DivMod(n, b);
    assert (q - p) * b == d - r;
    SmallMultiple(q - p, b);
  }

  lemma MulAtLeast(k: int, b: int)
    requires k >= 1 && b > 0
    ensures k * b >= b
  {
  }

  /** The only multiple of b strictly between -b and b is 0. */
  lemma SmallMultiple(k: int, b: int)
    requires b > 0 && -b < k * b < b
    ensures k == 0
  {
    if k >= 1 {
      MulAtLeast(k, b);
      assert false;
    } else if k <= -1 {
      MulAtLeast(-k, b);
      assert false;
    }
  }

  /** The other direction of the round trip: every digit string without a leading
      zero is the digit string of its own value. */
  lemma {:induction false} BaseDigitsOfParse(s: string, b: nat)
    requires 2 <= b <= 16
    requires forall i :: 0 <= i < |s| ==> DigitValue(s[i]) < b
    requires s != [] ==> s[0] != '0'
    ensures BaseDigits(ParseDigits(s, b), b) == s
    decreases |s|
  {
    if s != [] {
      var init, c := s[..|s| - 1], s[|s| - 1];
      assert s == init + [c];
      var p, d := ParseDigits(init, b), DigitValue(c);
      var v := ParseDigits(s, b);
      assert v == p * b + d by {
        ParseAppend(init, c, b);
      }
      assert v > 0 by {
        if init == [] {
          assert c == s[0];
        } else {
          assert init[0] == s[0];
          ParsePositive(init, b);
        }
      }
      assert v / b == p && v % b == d by {
        DivModOfDigit(p, d, b);
      }
      BaseDigitsOfParse(init, b);
      DigitCharOfValue(c);
      BaseDigitsLast(v, b);
    }
  }

  /** A number below 10^k has at most k decimal digits. */
  lemma {:induction false} DigitCountBound(v: nat, k: nat)
    requires v < Pow(10, k)
    ensures |BaseDigits(v, 10)| <= k
    decreases k
  {
    if v > 0 {
      assert k > 0;
      assert |BaseDigits(v, 10)| == |BaseDigits(v / 10, 10)| + 1;
      DigitCountBound(v / 10, k - 1);
    }
  }

  /** A 32-bit unsigned value has at most 10 decimal digits. */
  lemma IntDigitCount(v: nat)
    requires v < U32
    ensures |BaseDigits(v, 10)| <= 10
  {
    assert Pow(10, 10) == 10000000000;
    DigitCountBound(v, 10);
  }

  // ---------------------------------------------------------------------------
  // itoa and its static buffer
  // ---------------------------------------------------------------------------

  /** The lookup table itoa indexes with val % 10. */
  const ItoaTable: string := "0123456789abcdef"

  /** Size of itoa's static buffer; the text always ends at its last cell. */
  const ItoaSize: nat := 32

  /** The effect of itoa on its buffer: the decimal digits of a value stored so that
      they end just before the last cell, nothing else changed. */
  function Written(buf: seq<char>, digits: string): (r: seq<char>)
    requires |buf| == ItoaSize && |digits| <= ItoaSize - 1
    ensures |r| == ItoaSize && r[ItoaSize - 1] == buf[ItoaSize - 1]
  {
    buf[..ItoaSize - 1 - |digits|] + digits + buf[ItoaSize - 1..]
  }

  /** itoa's text for val: its decimal digits, and the empty string for 0. */
  function ItoaText(val: nat): string
  {
    BaseDigits(val, 10)
  }

  /** The text a pointer returned by a first itoa call shows after a second call has
      overwritten the buffer: a string as long as the first one, ending in the second
      call's digits. */
  lemma SharedBufferText(buf: seq<char>, x: nat, y: nat)
    requires |buf| == ItoaSize && x < 0x8000_0000 && y < 0x8000_0000
    ensures var dx, dy := ItoaText(x), ItoaText(y);
      |dx| <= 10 && |dy| <= 10 &&
      var t := Written(Written(buf, dx), dy)[ItoaSize - 1 - |dx|..ItoaSize - 1];
      (|dy| <= |dx| ==> t == dx[..|dx| - |dy|] + dy) &&
      (|dx| < |dy| ==> t == dy[|dy| - |dx|..])
  {
    IntDigitCount(x);
    IntDigitCount(y);
    var dx, dy := ItoaText(x), ItoaText(y);
    var b1 := Written(buf, dx);
    var b2 := Written(b1, dy);
    var t := b2[ItoaSize - 1 - |dx|..ItoaSize - 1];
    if |dy| <= |dx| {
      assert forall i :: 0 <= i < |dx| - |dy| ==> t[i] == dx[i];
      assert forall i :: |dx| - |dy| <= i < |dx| ==> t[i] == dy[i - (|dx| - |dy|)];
      assert t == dx[..|dx| - |dy|] + dy;
    } else {
      assert forall i :: 0 <= i < |dx| ==> t[i] == dy[i + (|dy| - |dx|)];
      assert t == dy[|dy| - |dx|..];
    }
  }

  /** An average of 57 shown next to a window of 3 reads "53". */
  lemma SharedBufferExample(buf: seq<char>)
    requires |buf| == ItoaSize
    ensures ItoaText(57) == "57" && ItoaText(3) == "3"
    ensures Written(Written(buf, ItoaText(57)), ItoaText(3))[ItoaSize - 3..ItoaSize - 1] == "53"
  {
    assert ItoaText(5) == BaseDigits(0, 10) + [DigitChar(5)];
    assert ItoaText(57) == "57";
    assert ItoaText(3) == "3";
    SharedBufferText(buf, 57, 3);
  }

  /** itoa(0) is the empty string: the loop never runs and the pointer lands on the
      terminator in the last cell. */
  lemma ItoaZero(buf: seq<char>)
    requires |buf| == ItoaSize
    ensures ItoaText(0) == [] && Written(buf, ItoaText(0)) == buf
  {
  }

  /** char buf[32], static, zero-initialised. */
  class DigitBuffer {
    var buf: array<char>

    ghost predicate Valid()
      reads this, buf
    {
      buf.Length == ItoaSize && buf[ItoaSize - 1] == Nul
    }

    constructor ()
      ensures Valid() && fresh(buf) && buf[..] == seq(ItoaSize, _ => Nul)
    {
      buf := new char[ItoaSize](_ => Nul);
    }

    /** itoa: store the decimal digits of val backwards from index 30 and return the
        index just past the last one stored, where the text begins. */
    method Itoa(val: int) returns (start: nat)
      requires Valid() && 0 <= val < 0x8000_0000
      modifies buf
      ensures Valid()
      ensures start == ItoaSize - 1 - |ItoaText(val)|
      ensures buf[..] == Written(old(buf[..]), ItoaText(val))
      ensures buf[start..ItoaSize - 1] == ItoaText(val)
    {
      IntDigitCount(val);
      var i := 30;
      var v := val;
      while v != 0 && i != 0
        invariant 0 <= v <= val
        invariant i == 30 - |ItoaText(val)| + |ItoaText(v)| && i >= 20
        invariant ItoaText(val) == ItoaText(v) + buf[i + 1..ItoaSize - 1]
        invariant forall k :: 0 <= k <= i ==> buf[k] == old(buf[k])
        invariant buf[ItoaSize - 1] == old(buf[ItoaSize - 1])
        decreases v
      {
        assert ItoaTable[v % 10] == DigitChar(v % 10);
        buf[i] := ItoaTable[v % 10];
        assert ItoaText(v) == ItoaText(v / 10) + [buf[i]];
        i, v := i - 1, v / 10;
      }
      start := i + 1;
      assert buf[..] == Written(old(buf[..]), ItoaText(val));
    }
  }

  // ---------------------------------------------------------------------------
  // longToChar
  // ---------------------------------------------------------------------------

  /** Unsigned division as longToChar performs it. */
  function Quot(v: nat, b: nat): (q: nat)
    requires b >= 2
    ensures q == v / b
    ensures v > 0 ==> q < v
  {
    DivMod(v, b);
    v / b
  }

  /** One round of longToChar's second loop: res = value - base * (value / base) is the
      last digit, and the text of value is the text of value / base followed by it. */
  lemma NumeralLast(v: nat, b: nat)
    requires 2 <= b <= 16
    ensures v - b * (v / b) == v % b < b
    ensures v > 0 ==> v / b < v
    ensures Numeral(v, b) == (if v / b == 0 then [] else Numeral(v / b, b)) + [DigitChar(v % b)]
  {
    var q, d := v / b, v % b;
    assert v - b * q == d < b by {
      DivMod(v, b);
    }
    if v == 0 {
      assert q == 0 && d == 0 by {
        DivMod(v, b);
      }
    } else {
      BaseDigitsLast(v, b);
      assert q > 0 ==> Numeral(q, b) == BaseDigits(q, b);
    }
  }

  /** longToChar(value, ptr, base): count the digits, terminate the text that far on,
      then write the digits from the last to the first, moving the pointer back to
      where it started. A null pointer is returned unchanged. The caller's buffer must
      have room for the digits and the terminator. */
  method LongToChar(value: nat, ptr: array?<char>, off: nat, base: nat) returns (r: Option<nat>)
    requires 2 <= base <= 16
    requires ptr != null ==> off + |Numeral(value, base)| < ptr.Length
    modifies ptr
    ensures ptr == null ==> r == None
    ensures ptr != null ==> r == Some(off)
    ensures ptr != null ==>
      var end := off + |Numeral(value, base)|;
      ptr[off..end] == Numeral(value, base) && ptr[end] == Nul &&
      (forall k :: 0 <= k < off ==> ptr[k] == old(ptr[k])) &&
      (forall k :: end < k < ptr.Length ==> ptr[k] == old(ptr[k]))
  {
    if ptr == null {
      return None;
    }
    var count := CountDigits(value, base);
    var end := off + count;
    ptr[end] := Nul;
    var p := WriteDigits(value, ptr, off, end, base);
    return Some(p);
  }

  /** The first loop of longToChar: the number of digits, one for 0. */
  method CountDigits(value: nat, base: nat) returns (count: nat)
    requires 2 <= base <= 16
    ensures count == |Numeral(value, base)|
  {
    count := 0;
    var tmp: nat := value;
    if tmp == 0 {
      count := count + 1;
    }
    while tmp > 0
      invariant count + |BaseDigits(tmp, base)| == |Numeral(value, base)|
      decreases tmp
    {
      BaseDigitsLast(tmp, base);
      tmp := Quot(tmp, base);
      count := count + 1;
    }
  }

  /** The second loop of longToChar: from the terminator at end backwards, one digit
      per round, least significant first, until the quotient is zero. */
  method WriteDigits(value: nat, ptr: array<char>, off: nat, end: nat, base: nat) returns (p: nat)
    requires 2 <= base <= 16
    requires end == off + |Numeral(value, base)| && end < ptr.Length
    modifies ptr
    ensures p == off
    ensures ptr[off..end] == Numeral(value, base)
    ensures forall k :: 0 <= k < off ==> ptr[k] == old(ptr[k])
    ensures forall k :: end <= k < ptr.Length ==> ptr[k] == old(ptr[k])
  {
    p := end;
    var v: nat := value;
    ghost var digits := Numeral(value, base);
    while true
      invariant off < p <= end
      invariant p - off == |Numeral(v, base)|
      invariant digits[..p - off] == Numeral(v, base)
      invariant ptr[p..end] == digits[p - off..]
      invariant forall k :: 0 <= k < off ==> ptr[k] == old(ptr[k])
      invariant forall k :: end <= k < ptr.Length ==> ptr[k] == old(ptr[k])
      decreases v
    {
      var t := Quot(v, base);
      var res := v - base * t;
      NumeralLast(v, base);
      p := p - 1;
      // res < base <= 16, so the source's second test (res >= 10 && res < 16) always holds
      if res < 10 {
        ptr[p] := ('0' as int + res) as char;
      } else {
        ptr[p] := ('A' as int - 10 + res) as char;
      }
      assert ptr[p] == digits[p - off];
      v := t;
      if v == 0 {
        break;
      }
    }
  }
}
