/** Paths as pathlib sees them, and the decimal names that mods are stored under. */
module Paths {

  /** A path: whether it is absolute, and its segments below the root (or below "."). */
  datatype Path = Path(absolute: bool, parts: seq<string>)

  /** `p / s1 / s2 / ...` for plain segments. */
  function Join(p: Path, segments: seq<string>): Path
  {
    Path(p.absolute, p.parts + segments)
  }

  /** q is p itself or lies somewhere below p. */
  predicate Within(q: Path, p: Path)
  {
    q.absolute == p.absolute && p.parts <= q.parts
  }

  /** q lies strictly below p. */
  predicate StrictlyBelow(q: Path, p: Path)
  {
    Within(q, p) && |q.parts| > |p.parts|
  }

  /** c is an immediate child of p, i.e. one of the entries `p.iterdir()` yields. */
  predicate IsChild(c: Path, p: Path)
  {
    Within(c, p) && |c.parts| == |p.parts| + 1
  }

  /** The segments of q below p. */
  function Suffix(q: Path, p: Path): (s: seq<string>)
    requires Within(q, p)
    ensures Join(p, s) == q
  {
    assert q.parts == p.parts + q.parts[|p.parts|..];
    q.parts[|p.parts|..]
  }

  /** The child of p on the way down to q. */
  function ChildToward(p: Path, q: Path): (c: Path)
    requires StrictlyBelow(q, p)
    ensures IsChild(c, p) && Within(q, c)
  {
    Path(p.absolute, q.parts[..|p.parts| + 1])
  }

  /** `path.parts[-1]`; the fallback is never used for an entry of a directory. */
  function Name(p: Path): string
  {
    if |p.parts| == 0 then "" else p.parts[|p.parts| - 1]
  }

  /** `str.isdigit()` restricted to ASCII: non-empty and every character in '0'..'9'. */
  predicate IsDigits(s: string)
  {
    |s| > 0 && forall i :: 0 <= i < |s| ==> '0' <= s[i] <= '9'
  }

  function DigitChar(d: nat): char
    requires d < 10
  {
    ['0', '1', '2', '3', '4', '5', '6', '7', '8', '9'][d]
  }

  /** The decimal digits of n, without leading zeros. */
  function NatDigits(n: nat): (s: string)
    ensures IsDigits(s)
    ensures n < 10 <==> |s| == 1
  {
    if n < 10 then [DigitChar(n)] else NatDigits(n / 10) + [DigitChar(n % 10)]
  }

  /** `str(m)` for a Python int: an optional minus sign, then the digits. */
  function DecimalString(m: int): (s: string)
    ensures IsDigits(s) <==> m >= 0
  {
    if m < 0 then
      var s := ['-'] + NatDigits(-m);
      assert s[0] == '-';
      s
    else NatDigits(m)
  }

  lemma DigitCharInjective(a: nat, b: nat)
    requires a < 10 && b < 10 && DigitChar(a) == DigitChar(b)
    ensures a == b
  {
  }

  /** Different naturals are written differently. */
  lemma {:induction false} NatDigitsInjective(a: nat, b: nat)
    requires NatDigits(a) == NatDigits(b)
    ensures a == b
  {
    var s := NatDigits(a);
    if a >= 10 && b >= 10 {
      assert NatDigits(a / 10) == s[..|s| - 1] == NatDigits(b / 10);
      NatDigitsInjective(a / 10, b / 10);
      DigitCharInjective(a % 10, b % 10);
    } else if a < 10 && b < 10 {
      DigitCharInjective(a, b);
    }
  }

  /** Different mod ids never share a directory name. */
  lemma DecimalStringInjective(a: int, b: int)
    requires DecimalString(a) == DecimalString(b)
    ensures a == b
  {
    if a < 0 && b < 0 {
      assert NatDigits(-a) == DecimalString(a)[1..];
      NatDigitsInjective(-a, -b);
    } else if a >= 0 && b >= 0 {
      NatDigitsInjective(a, b);
    }
  }

  /** Two paths that both contain q are nested one inside the other. */
  lemma WithinComparable(q: Path, a: Path, b: Path)
    requires Within(q, a) && Within(q, b)
    ensures Within(a, b) || Within(b, a)
  {
    if |a.parts| <= |b.parts| {
      assert a.parts == q.parts[..|a.parts|] == b.parts[..|a.parts|];
    } else {
      assert b.parts == q.parts[..|b.parts|] == a.parts[..|b.parts|];
    }
  }

  /** Below a child c of p lie exactly the paths whose way down from p passes through c. */
  lemma WithinChild(q: Path, c: Path, p: Path)
    requires IsChild(c, p)
    ensures Within(q, c) <==> StrictlyBelow(q, p) && ChildToward(p, q) == c
  {
    if Within(q, c) {
      assert c.parts == q.parts[..|c.parts|];
    }
  }
}
