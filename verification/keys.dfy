/**
 * The string keys of the visited set and the parent map: `key(r, c, b)`
 * renders the three integers with commas between them, and path
 * reconstruction reads a key back with `split(",")` and `Number`.  The
 * round trip shows that a key determines its triple, so the drivers'
 * sets and maps can be read as sets and maps of states.
 */
module Keys {
  import opened Wrappers
  import opened StateSpace

  predicate IsDigit(ch: char)
  {
    '0' <= ch <= '9'
  }

  function DigitChar(d: nat): char
    requires d < 10
  {
    ('0' as int + d) as char
  }

  function DigitValue(ch: char): nat
    requires IsDigit(ch)
  {
    ch as int - '0' as int
  }

  /** The decimal numeral of `n`, without leading zeros. */
  function NatToString(n: nat): (s: string)
    ensures |s| > 0 && forall i :: 0 <= i < |s| ==> IsDigit(s[i])
    decreases n
  {
    if n < 10 then [DigitChar(n)] else NatToString(n / 10) + [DigitChar(n % 10)]
  }

  /** How a template literal renders an integer: a minus sign, then the digits. */
  function IntToString(n: int): (s: string)
    ensures ',' !in s
  {
    if n < 0 then "-" + NatToString(-n) else NatToString(n)
  }

  /** `key(r, c, b)`: the template `${r},${c},${b}`. */
  function Key(r: int, c: int, b: int): string
  {
    IntToString(r) + "," + IntToString(c) + "," + IntToString(b)
  }

  /** The value of a non-empty run of decimal digits; None for anything else. */
  function ParseDigits(s: string): Option<nat>
    decreases |s|
  {
    if s == [] || !IsDigit(s[|s| - 1]) then None
    else if |s| == 1 then Some(DigitValue(s[0]))
    else match ParseDigits(s[..|s| - 1])
      case None => None
      case Some(v) => Some(v * 10 + DigitValue(s[|s| - 1]))
  }

  /**
   * `Number(s)` on an optionally signed decimal integer; None stands for
   * NaN.  Only the integer syntax that `IntToString` produces is modelled.
   */
  function Number(s: string): Option<int>
  {
    if |s| > 0 && s[0] == '-' then
      match ParseDigits(s[1..])
      case None => None
      case Some(v) => Some(-(v as int))
    else
      match ParseDigits(s)
      case None => None
      case Some(v) => Some(v)
  }

  /** `s.split(",")`: the pieces between commas, at least one. */
  function Split(s: string): (parts: seq<string>)
    ensures |parts| > 0
    decreases |s|
  {
    if s == [] then [""]
    else
      var rest := Split(s[1..]);
      if s[0] == ',' then [""] + rest
      else [[s[0]] + rest[0]] + rest[1..]
  }

  /** `k.split(",").map(Number)`, as path reconstruction reads a key. */
  function KeyFields(k: string): seq<Option<int>>
  {
    var parts := Split(k);
    seq(|parts|, i requires 0 <= i < |parts| => Number(parts[i]))
  }

  lemma {:induction false} DigitsRoundTrip(n: nat)
    ensures ParseDigits(NatToString(n)) == Some(n)
    decreases n
  {
    var s := NatToString(n);
    if n >= 10 {
      DigitsRoundTrip(n / 10);
      assert s[..|s| - 1] == NatToString(n / 10);
    }
  }

  lemma NumberRoundTrip(n: int)
    ensures Number(IntToString(n)) == Some(n)
  {
    var s := IntToString(n);
    if n < 0 {
      assert s[1..] == NatToString(-n);
      DigitsRoundTrip(-n);
    } else {
      DigitsRoundTrip(n);
    }
  }

  /** A comma-free prefix is glued to the first piece of what follows it. */
  lemma {:induction false} SplitPrefix(a: string, t: string)
    requires ',' !in a
    ensures Split(a + t) == [a + Split(t)[0]] + Split(t)[1..]
    decreases |a|
  {
    if a == [] {
      assert a + t == t;
      var parts := Split(t);
      assert parts == [parts[0]] + parts[1..];
      assert a + parts[0] == parts[0];
    } else {
      SplitPrefix(a[1..], t);
      assert (a + t)[1..] == a[1..] + t;
      assert [a[0]] + (a[1..] + Split(t)[0]) == a + Split(t)[0];
    }
  }

  lemma SplitThree(a: string, b: string, c: string)
    requires ',' !in a && ',' !in b && ',' !in c
    ensures Split(a + "," + b + "," + c) == [a, b, c]
  {
    var tail := "," + c;
    SplitPrefix(c, "");
    assert c + "" == c;
    assert Split(tail) == [""] + Split(c);
    SplitPrefix(b, tail);
    assert b + "" == b;
    var mid := "," + (b + tail);
    assert Split(mid) == [""] + Split(b + tail);
    SplitPrefix(a, mid);
    assert a + "" == a;
    assert a + "," + b + "," + c == a + mid;
  }

  /** Reading a key back gives the row, column and battery it was made from. */
  lemma KeyRoundTrip(r: int, c: int, b: int)
    ensures KeyFields(Key(r, c, b)) == [Some(r), Some(c), Some(b)]
  {
    SplitThree(IntToString(r), IntToString(c), IntToString(b));
    NumberRoundTrip(r);
    NumberRoundTrip(c);
    NumberRoundTrip(b);
  }

  /**
   * The cell of a state as path reconstruction recovers it: render the key,
   * split it and take the first two numbers.
   */
  function KeyCell(s: State): (p: Pos)
    ensures p == PosOf(s)
  {
    var parts := KeyFields(Key(s.r, s.c, s.b));
    KeyRoundTrip(s.r, s.c, s.b);
    Pos(parts[0].value, parts[1].value)
  }

  /** Keys are collision-free: distinct states never share a key. */
  lemma KeyInjective(s: State, t: State)
    ensures Key(s.r, s.c, s.b) == Key(t.r, t.c, t.b) ==> s == t
  {
    KeyRoundTrip(s.r, s.c, s.b);
    KeyRoundTrip(t.r, t.c, t.b);
  }
}
