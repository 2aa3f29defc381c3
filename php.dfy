/**
 * The PHP built-ins the pages rely on, over strings of single-byte characters:
 * `empty()` on strings, `trim()`, ASCII `strtolower()`, `substr($s, 0, $n)`,
 * integer-to-string conversion, substring search and `pathinfo(..., PATHINFO_EXTENSION)`.
 */
module Php {

  /** The characters `trim()` strips when no list is given: " \t\n\r\0\x0B". */
  const Whitespace: set<char> := {' ', '\t', '\n', '\r', '\0', '\U{000B}'}

  /** `empty($s)` for a string: true for "" and for "0". */
  predicate Empty(s: string): (r: bool)
    ensures r <==> s == "" || s == "0"
  {
    |s| == 0 || (|s| == 1 && s[0] == '0')
  }

  /** Strips the leading characters that belong to `cs`. */
  function TrimLeft(s: string, cs: set<char>): (r: string)
    ensures |r| <= |s| && r == s[|s| - |r|..]
    ensures r == [] || r[0] !in cs
    ensures forall i :: 0 <= i < |s| - |r| ==> s[i] in cs
  {
    if s != [] && s[0] in cs then TrimLeft(s[1..], cs) else s
  }

  /** Strips the trailing characters that belong to `cs`. */
  function TrimRight(s: string, cs: set<char>): (r: string)
    ensures |r| <= |s| && r == s[..|r|]
    ensures r == [] || r[|r| - 1] !in cs
    ensures forall i :: |r| <= i < |s| ==> s[i] in cs
  {
    if s != [] && s[|s| - 1] in cs then TrimRight(s[..|s| - 1], cs) else s
  }

  /** `trim($s, $cs)`: strips both ends; a string whose ends are already outside `cs` is returned as it is. */
  function Trim(s: string, cs: set<char>): (r: string)
    ensures |r| <= |s|
    ensures r == [] || (r[0] !in cs && r[|r| - 1] !in cs)
    ensures (s == [] || (s[0] !in cs && s[|s| - 1] !in cs)) ==> r == s
  {
    TrimRight(TrimLeft(s, cs), cs)
  }

  /** Where the run `trim` keeps starts: the length of the stripped prefix. */
  function TrimStart(s: string, cs: set<char>): (a: nat)
    ensures a <= |s|
  {
    |s| - |TrimLeft(s, cs)|
  }

  /**
   * `trim` keeps one contiguous run of `s`, starting at `TrimStart`: every
   * character before it and every character after it is in `cs`.
   */
  lemma TrimIsInfix(s: string, cs: set<char>)
    ensures TrimStart(s, cs) + |Trim(s, cs)| <= |s|
    ensures Trim(s, cs) == s[TrimStart(s, cs)..TrimStart(s, cs) + |Trim(s, cs)|]
    ensures forall i :: 0 <= i < TrimStart(s, cs) ==> s[i] in cs
    ensures forall i :: TrimStart(s, cs) + |Trim(s, cs)| <= i < |s| ==> s[i] in cs
  {
    var l, r := TrimLeft(s, cs), Trim(s, cs);
    var a := |s| - |l|;
    assert r == s[a..a + |r|];
    forall i | a + |r| <= i < |s| ensures s[i] in cs {
      assert s[i] == l[i - a];
    }
  }

  /** A property every character of `s` has, every character of its trimmed form has. */
  lemma TrimKeeps(s: string, cs: set<char>, p: char -> bool)
    requires forall i :: 0 <= i < |s| ==> p(s[i])
    ensures forall i :: 0 <= i < |Trim(s, cs)| ==> p(Trim(s, cs)[i])
  {
    var l := TrimLeft(s, cs);
    assert forall i :: 0 <= i < |l| ==> l[i] == s[|s| - |l| + i];
    var r := TrimRight(l, cs);
    assert forall i :: 0 <= i < |r| ==> r[i] == l[i];
  }

  /** `trim($s)` with PHP's default character list. */
  function TrimWs(s: string): string {
    Trim(s, Whitespace)
  }

  /** ASCII lower-casing of one byte, as PHP 8's locale-independent `strtolower` does. */
  function LowerChar(c: char): char {
    if 'A' <= c <= 'Z' then (c as int + 32) as char else c
  }

  /** `strtolower($s)`. */
  function Lower(s: string): (r: string)
    ensures |r| == |s|
    ensures forall i :: 0 <= i < |s| ==> r[i] == LowerChar(s[i])
  {
    if s == [] then [] else [LowerChar(s[0])] + Lower(s[1..])
  }

  /** Lower-casing works piece by piece. */
  lemma {:induction false} LowerConcat(x: string, y: string)
    ensures Lower(x + y) == Lower(x) + Lower(y)
  {
    if x != [] {
      assert (x + y)[1..] == x[1..] + y;
      LowerConcat(x[1..], y);
    }
  }

  /** `substr($s, 0, $n)` for a non-negative `$n`. */
  function Prefix(s: string, n: nat): (r: string)
    ensures |r| == if |s| <= n then |s| else n
    ensures r == s[..|r|]
  {
    if |s| <= n then s else s[..n]
  }

  function DigitChar(d: nat): char
    requires d < 10
  {
    "0123456789"[d]
  }

  /** The decimal text PHP produces when an integer meets the `.` operator. */
  function Decimal(n: nat): (r: string)
    ensures |r| >= 1 && (|r| == 1 <==> n < 10)
    ensures forall i :: 0 <= i < |r| ==> '0' <= r[i] <= '9'
  {
    if n < 10 then [DigitChar(n)] else Decimal(n / 10) + [DigitChar(n % 10)]
  }

  /** Distinct numbers print differently: the probe suffixes `-1`, `-2`, ... never repeat. */
  lemma {:induction false} DecimalInjective(a: nat, b: nat)
    requires Decimal(a) == Decimal(b)
    ensures a == b
  {
    if a < 10 || b < 10 {
      assert "0123456789"[a] == Decimal(a)[0] == Decimal(b)[0] == "0123456789"[b];
    } else {
      var da, db := Decimal(a / 10), Decimal(b / 10);
      assert Decimal(a) == da + [DigitChar(a % 10)];
      assert Decimal(b) == db + [DigitChar(b % 10)];
      assert |da| == |db|;
      assert da == Decimal(a)[..|da|] == Decimal(b)[..|db|] == db;
      DecimalInjective(a / 10, b / 10);
      assert DigitChar(a % 10) == Decimal(a)[|da|] == Decimal(b)[|db|] == DigitChar(b % 10);
    }
  }

  /** `t` occurs in `s` as a contiguous substring (SQL `LIKE '%t%'`, wildcards inside `t` not interpreted). */
  predicate Contains(s: string, t: string) {
    exists i :: 0 <= i <= |s| - |t| && OccursAt(s, t, i)
  }

  predicate OccursAt(s: string, t: string, i: nat)
    requires i + |t| <= |s|
  {
    s[i..i + |t|] == t
  }

  /** The index of the last `c` in `s`, or -1 when `c` does not occur. */
  function LastIndex(s: string, c: char): (k: int)
    ensures -1 <= k < |s|
    ensures k >= 0 ==> s[k] == c
    ensures forall j :: k < j < |s| ==> s[j] != c
  {
    if s == [] then -1
    else if s[|s| - 1] == c then |s| - 1
    else LastIndex(s[..|s| - 1], c)
  }

  /**
   * `pathinfo($name, PATHINFO_EXTENSION)`: the text after the last dot of the
   * base name (what follows the last `/`), or "" when the base name has no dot.
   */
  function Extension(name: string): (r: string)
    ensures '.' !in r && '/' !in r
  {
    var dot := LastIndex(name, '.');
    if dot > LastIndex(name, '/') then name[dot + 1..] else ""
  }

  /**
   * The extension is the end of `name` after its last dot, when that dot has
   * no `/` after it; it is "" only when the name ends in a dot or every dot is
   * followed by a `/` somewhere.
   */
  lemma ExtensionAfterLastDot(name: string)
    ensures |Extension(name)| <= |name| && Extension(name) == name[|name| - |Extension(name)|..]
    ensures Extension(name) != [] ==> |Extension(name)| < |name| && name[|name| - |Extension(name)| - 1] == '.'
    ensures Extension(name) == [] ==>
      (name != [] && name[|name| - 1] == '.') || forall i :: 0 <= i < |name| && name[i] == '.' ==> '/' in name[i + 1..]
  {
    var dot, slash := LastIndex(name, '.'), LastIndex(name, '/');
    if dot <= slash {
      forall i | 0 <= i < |name| && name[i] == '.' ensures '/' in name[i + 1..] {
        assert name[slash] == name[i + 1..][slash - i - 1];
      }
    }
  }
}
