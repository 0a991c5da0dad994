/** Helpers shared by the models of the plug-in's source files: an optional value,
    searches over sequences (std::find, std::string::find, strrchr), decimal
    formatting as printf's %d does it, ASCII case folding, and the byte-wise
    ordering std::string uses as a std::map key. */
module Common {

  /** A value that may be missing: a null pointer, std::string::npos, an absent key. */
  datatype Option<+T> = None | Some(value: T)

  /** A JSON value as json11 or CefValue builds it; serialisation is left to an oracle. */
  datatype Json = JBool(b: bool) | JInt(i: int) | JStr(s: string) | JObject(fields: map<string, Json>)

  // ---------------------------------------------------------------------------
  // Searching

  /** Position of the first `x` in `s`; `None` when there is none (std::find, find). */
  function IndexOf<T(==)>(s: seq<T>, x: T): (r: Option<nat>)
    ensures r.None? <==> x !in s
    ensures r.Some? ==> r.value < |s| && s[r.value] == x && x !in s[..r.value]
  {
    if |s| == 0 then None
    else if s[0] == x then Some(0)
    else
      match IndexOf(s[1..], x)
      case None =>
        assert s == [s[0]] + s[1..];
        None
      case Some(i) =>
        assert s[..i + 1] == [s[0]] + s[1..][..i];
        Some(i + 1)
  }

  /** Position of the last `x` in `s`; `None` when there is none (strrchr, find_last_of). */
  function LastIndexOf<T(==)>(s: seq<T>, x: T): (r: Option<nat>)
    ensures r.None? <==> x !in s
    ensures r.Some? ==> r.value < |s| && s[r.value] == x && x !in s[r.value + 1..]
  {
    if |s| == 0 then None
    else if s[|s| - 1] == x then Some(|s| - 1)
    else
      var init := s[..|s| - 1];
      assert s == init + [s[|s| - 1]];
      match LastIndexOf(init, x)
      case None => None
      case Some(i) =>
        assert s[i + 1..] == init[i + 1..] + [s[|s| - 1]];
        Some(i)
  }

  /** `s` with its first `x` erased, or `s` itself when it holds no `x`
      (std::vector::erase of the iterator std::find returned). */
  function RemoveFirst<T(==)>(s: seq<T>, x: T): (r: seq<T>)
    ensures x !in s ==> r == s
    ensures x in s ==> |r| == |s| - 1
    ensures x in s ==> r == s[..IndexOf(s, x).value] + s[IndexOf(s, x).value + 1..]
    ensures multiset(r) == multiset(s) - multiset{x}
  {
    match IndexOf(s, x)
    case None =>
      assert multiset(s)[x] == 0;
      s
    case Some(i) =>
      assert s == s[..i] + [s[i]] + s[i + 1..];
      s[..i] + s[i + 1..]
  }

  /** Number of occurrences of `x` in `s`. */
  function Count<T(==)>(s: seq<T>, x: T): (n: nat)
    ensures n == multiset(s)[x]
  {
    if |s| == 0 then 0
    else
      assert s == [s[0]] + s[1..];
      (if s[0] == x then 1 else 0) + Count(s[1..], x)
  }

  // ---------------------------------------------------------------------------
  // Characters and strings

  /** `c` with `from` replaced by `to`. */
  function SwapChar(c: char, from: char, to: char): char
  {
    if c == from then to else c
  }

  /** Every `from` in `s` replaced by `to` (dstr_replace and std::transform with a one-character rule). */
  function ReplaceChar(s: string, from: char, to: char): (r: string)
    ensures |r| == |s|
    ensures forall i :: 0 <= i < |s| ==> r[i] == SwapChar(s[i], from, to)
  {
    seq(|s|, i requires 0 <= i < |s| => SwapChar(s[i], from, to))
  }

  /** towlower / tolower in the "C" locale: only A-Z change. */
  function ToLower(c: char): char
  {
    if 'A' <= c <= 'Z' then (c as int + 32) as char else c
  }

  /** `s` with every character passed through `ToLower`. */
  function Lower(s: string): (r: string)
    ensures |r| == |s|
    ensures forall i :: 0 <= i < |s| ==> r[i] == ToLower(s[i])
  {
    seq(|s|, i requires 0 <= i < |s| => ToLower(s[i]))
  }

  /** The strings stricmp reports as equal (it returns zero exactly for these). */
  predicate EqualsIgnoreCase(a: string, b: string)
  {
    Lower(a) == Lower(b)
  }

  // ---------------------------------------------------------------------------
  // Decimal formatting

  predicate IsDigit(c: char)
  {
    '0' <= c <= '9'
  }

  function DigitChar(d: nat): (c: char)
    requires d < 10
    ensures IsDigit(c)
  {
    ('0' as int + d) as char
  }

  function DigitValue(c: char): nat
    requires IsDigit(c)
  {
    c as int - '0' as int
  }

  /** The number a string of decimal digits denotes. */
  function ParseDigits(s: string): nat
    requires forall i :: 0 <= i < |s| ==> IsDigit(s[i])
  {
    if |s| == 0 then 0 else ParseDigits(s[..|s| - 1]) * 10 + DigitValue(s[|s| - 1])
  }

  /** printf's %d of a non-negative number: its shortest decimal spelling. */
  function NatToString(n: nat): (r: string)
    ensures 1 <= |r|
    ensures forall i :: 0 <= i < |r| ==> IsDigit(r[i])
    ensures ParseDigits(r) == n
    ensures n < 10 <==> |r| == 1
  {
    if n < 10 then [DigitChar(n)]
    else
      var front := NatToString(n / 10);
      var r := front + [DigitChar(n % 10)];
      assert r[..|r| - 1] == front;
      r
  }

  /** printf's %d of any integer: a minus sign before negative numbers. */
  function IntToString(i: int): (r: string)
    ensures i >= 0 ==> r == NatToString(i)
    ensures i < 0 ==> r == "-" + NatToString(-i)
  {
    if i < 0 then "-" + NatToString(-i) else NatToString(i)
  }

  /** printf's %02d: at least two characters, padded on the left with '0'. */
  function Pad2(i: int): (r: string)
    ensures 0 <= i < 100 ==> |r| == 2 && IsDigit(r[0]) && IsDigit(r[1]) && ParseDigits(r) == i
    ensures |r| >= 2
  {
    if 0 <= i < 10 then "0" + NatToString(i) else IntToString(i)
  }

  // ---------------------------------------------------------------------------
  // The order of std::string keys in a std::map: character by character,
  // a proper prefix before its extensions.

  predicate LexLe(a: string, b: string)
  {
    |a| == 0 || (|b| > 0 && (a[0] < b[0] || (a[0] == b[0] && LexLe(a[1..], b[1..]))))
  }

  lemma {:induction false} LexLeTotal(a: string, b: string)
    ensures LexLe(a, b) || LexLe(b, a)
  {
    if |a| > 0 && |b| > 0 && a[0] == b[0] {
      LexLeTotal(a[1..], b[1..]);
    }
  }

  lemma {:induction false} LexLeAntisymmetric(a: string, b: string)
    requires LexLe(a, b) && LexLe(b, a)
    ensures a == b
  {
    if |a| > 0 && |b| > 0 {
      LexLeAntisymmetric(a[1..], b[1..]);
      assert a == [a[0]] + a[1..] && b == [b[0]] + b[1..];
    }
  }

  lemma {:induction false} LexLeTransitive(a: string, b: string, c: string)
    requires LexLe(a, b) && LexLe(b, c)
    ensures LexLe(a, c)
  {
    if |a| > 0 && |b| > 0 && |c| > 0 && a[0] == b[0] && b[0] == c[0] {
      LexLeTransitive(a[1..], b[1..], c[1..]);
    }
  }

  /** Every non-empty finite set of strings has a least element (std::map::begin). */
  lemma {:induction false} LeastKeyExists(s: set<string>) returns (m: string)
    requires s != {}
    ensures m in s && forall k :: k in s ==> LexLe(m, k)
    decreases |s|
  {
    var x :| x in s;
    if s == {x} {
      m := x;
      LexLeTotal(x, x);
    } else {
      var m' := LeastKeyExists(s - {x});
      LexLeTotal(x, m');
      if LexLe(x, m') {
        m := x;
        forall k | k in s
          ensures LexLe(m, k)
        {
          if k == x {
            LexLeTotal(x, x);
          } else {
            LexLeTransitive(x, m', k);
          }
        }
      } else {
        m := m';
        assert LexLe(m', x);
      }
    }
  }
}
