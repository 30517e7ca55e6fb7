/**
 * The PHP string built-ins that the upload checks and the page-spec parser
 * rely on: the `(int)` cast of a string, integer-to-string conversion,
 * `explode`, `strtolower`, `pathinfo` and `basename`.
 */
module PhpStrings {

  // ---------------------------------------------------------------------
  // The (int) cast of a string
  // ---------------------------------------------------------------------

  /** The characters PHP skips before the number in a numeric string. */
  predicate IsSpace(c: char) {
    c == ' ' || c == '\t' || c == '\n' || c == '\r' || c == '\U{000B}' || c == '\U{000C}'
  }

  predicate IsDigit(c: char) {
    '0' <= c <= '9'
  }

  predicate AllDigits(s: string) {
    forall i :: 0 <= i < |s| ==> IsDigit(s[i])
  }

  predicate AllSpaces(s: string) {
    forall i :: 0 <= i < |s| ==> IsSpace(s[i])
  }

  function DigitValue(c: char): nat
    requires IsDigit(c)
  {
    c as int - '0' as int
  }

  function DigitChar(d: nat): (c: char)
    requires d < 10
    ensures IsDigit(c) && DigitValue(c) == d
  {
    ('0' as int + d) as char
  }

  /** `s` without its leading white space. */
  function SkipSpace(s: string): string {
    if s != [] && IsSpace(s[0]) then SkipSpace(s[1..]) else s
  }

  /**
   * Reads the decimal digits at the front of `s` onto `acc`, most
   * significant first, and stops at the first character that is not a digit.
   */
  function ReadDigits(s: string, acc: nat): nat {
    if s != [] && IsDigit(s[0]) then ReadDigits(s[1..], 10 * acc + DigitValue(s[0])) else acc
  }

  /**
   * PHP's `(int)` cast of a string: leading white space is skipped, then an
   * optional sign and the decimal digits that follow are read; anything else
   * (no digits at all, or garbage first) gives 0, and whatever follows the
   * digits is ignored.
   */
  function IntCast(s: string): int {
    var t := SkipSpace(s);
    if t != [] && (t[0] == '+' || t[0] == '-') then
      var v: int := ReadDigits(t[1..], 0);
      if t[0] == '-' then -v else v
    else
      ReadDigits(t, 0)
  }

  /** PHP's decimal rendering of a natural number (as in `'_page' . $pageNo`). */
  function DecimalString(n: nat): (s: string)
    ensures s != [] && AllDigits(s)
    ensures |s| > 1 ==> s[0] != '0'
  {
    if n < 10 then [DigitChar(n)] else DecimalString(n / 10) + [DigitChar(n % 10)]
  }

  /** PHP's decimal rendering of any integer. */
  function IntString(i: int): string {
    if i < 0 then "-" + DecimalString(-i) else DecimalString(i)
  }

  /** Reading stops where the digits stop. */
  lemma {:induction false} ReadDigitsStops(d: string, rest: string, acc: nat)
    requires AllDigits(d)
    requires rest == [] || !IsDigit(rest[0])
    ensures ReadDigits(d + rest, acc) == ReadDigits(d, acc)
  {
    if d == [] {
      assert d + rest == rest;
    } else {
      assert (d + rest)[1..] == d[1..] + rest;
      ReadDigitsStops(d[1..], rest, 10 * acc + DigitValue(d[0]));
    }
  }

  /** One more digit at the end multiplies the value read so far by ten. */
  lemma {:induction false} ReadDigitsSnoc(d: string, c: char, acc: nat)
    requires AllDigits(d) && IsDigit(c)
    ensures ReadDigits(d + [c], acc) == 10 * ReadDigits(d, acc) + DigitValue(c)
  {
    if d == [] {
      assert d + [c] == [c];
      assert [c][1..] == [];
    } else {
      assert (d + [c])[1..] == d[1..] + [c];
      ReadDigitsSnoc(d[1..], c, 10 * acc + DigitValue(d[0]));
    }
  }

  lemma {:induction false} ReadDecimal(n: nat)
    ensures ReadDigits(DecimalString(n), 0) == n
  {
    if n < 10 {
      assert [DigitChar(n)][1..] == [];
    } else {
      ReadDecimal(n / 10);
      ReadDigitsSnoc(DecimalString(n / 10), DigitChar(n % 10), 0);
    }
  }

  lemma {:induction false} SkipSpaceOfSpaces(spaces: string, t: string)
    requires AllSpaces(spaces)
    requires t == [] || !IsSpace(t[0])
    ensures SkipSpace(spaces + t) == t
  {
    if spaces != [] {
      assert (spaces + t)[1..] == spaces[1..] + t;
      SkipSpaceOfSpaces(spaces[1..], t);
    } else {
      assert spaces + t == t;
    }
  }

  /**
   * The cast reads back what the decimal rendering wrote, also with leading
   * white space before it and any non-digit text after it.
   */
  lemma IntCastOfDecimal(spaces: string, n: nat, rest: string)
    requires AllSpaces(spaces)
    requires rest == [] || !IsDigit(rest[0])
    ensures IntCast(spaces + DecimalString(n) + rest) == n
  {
    var d := DecimalString(n);
    assert spaces + d + rest == spaces + (d + rest);
    SkipSpaceOfSpaces(spaces, d + rest);
    ReadDigitsStops(d, rest, 0);
    ReadDecimal(n);
  }

  /** The cast of a decimal number followed by non-digit text is that number. */
  lemma ReadBackDecimal(n: nat, rest: string)
    requires rest == [] || !IsDigit(rest[0])
    ensures IntCast(DecimalString(n) + rest) == n
  {
    IntCastOfDecimal([], n, rest);
    assert [] + DecimalString(n) + rest == DecimalString(n) + rest;
  }

  /** Text that does not start (after white space) with a sign or a digit casts to 0. */
  lemma IntCastOfNonNumeric(s: string)
    requires var t := SkipSpace(s); t == [] || !(IsDigit(t[0]) || t[0] == '+' || t[0] == '-')
    ensures IntCast(s) == 0
  {
  }

  // ---------------------------------------------------------------------
  // explode
  // ---------------------------------------------------------------------

  /**
   * PHP's `explode(sep, s)` for a one-character separator: the pieces of `s`
   * between the separators, in order; `explode(',', "")` is `[""]`.
   */
  function Explode(sep: char, s: string): (parts: seq<string>)
    ensures |parts| > 0
    ensures (sep in s) == (|parts| > 1)
  {
    if s == [] then
      [[]]
    else
      var rest := Explode(sep, s[1..]);
      assert sep in s <==> s[0] == sep || sep in s[1..];
      if s[0] == sep then [[]] + rest else [[s[0]] + rest[0]] + rest[1..]
  }

  /** No piece holds the separator. */
  lemma {:induction false} ExplodePieces(sep: char, s: string)
    ensures forall i :: 0 <= i < |Explode(sep, s)| ==> sep !in Explode(sep, s)[i]
  {
    if s != [] {
      ExplodePieces(sep, s[1..]);
    }
  }

  /** PHP's `implode(sep, parts)`, the inverse of Explode. */
  function Implode(sep: char, parts: seq<string>): string
    requires |parts| > 0
  {
    if |parts| == 1 then parts[0] else parts[0] + [sep] + Implode(sep, parts[1..])
  }

  lemma {:induction false} ExplodeWithoutSeparator(sep: char, s: string)
    requires sep !in s
    ensures Explode(sep, s) == [s]
  {
    if s != [] {
      ExplodeWithoutSeparator(sep, s[1..]);
      assert [s[0]] + s[1..] == s;
    }
  }

  /** One step of Explode, for a string given as its first character and the rest. */
  lemma ExplodeCons(sep: char, c: char, t: string)
    ensures var rest := Explode(sep, t);
      Explode(sep, [c] + t) == if c == sep then [[]] + rest else [[c] + rest[0]] + rest[1..]
  {
  }

  /** A piece without the separator, then the separator, then the rest. */
  lemma {:induction false} ExplodeAround(sep: char, a: string, b: string)
    requires sep !in a
    ensures Explode(sep, a + [sep] + b) == [a] + Explode(sep, b)
  {
    if a == [] {
      assert a + [sep] + b == [sep] + b;
      ExplodeCons(sep, sep, b);
    } else {
      var c, a' := a[0], a[1..];
      ExplodeAround(sep, a', b);
      assert a + [sep] + b == [c] + (a' + [sep] + b);
      ExplodeCons(sep, c, a' + [sep] + b);
      assert [c] + a' == a;
    }
  }

  lemma {:induction false} ImplodeExplode(sep: char, s: string)
    ensures Implode(sep, Explode(sep, s)) == s
  {
    if s != [] {
      var rest := Explode(sep, s[1..]);
      ImplodeExplode(sep, s[1..]);
      if s[0] == sep {
        assert ([[]] + rest)[1..] == rest;
      } else if |rest| > 1 {
        assert ([[s[0]] + rest[0]] + rest[1..])[1..] == rest[1..];
        assert Implode(sep, rest) == rest[0] + [sep] + Implode(sep, rest[1..]);
      }
    }
  }

  lemma {:induction false} ExplodeImplode(sep: char, parts: seq<string>)
    requires |parts| > 0
    requires forall i :: 0 <= i < |parts| ==> sep !in parts[i]
    ensures Explode(sep, Implode(sep, parts)) == parts
  {
    ExplodeWithoutSeparator(sep, parts[0]);
    if |parts| > 1 {
      ExplodeImplode(sep, parts[1..]);
      ExplodeAround(sep, parts[0], Implode(sep, parts[1..]));
    }
  }

  // ---------------------------------------------------------------------
  // strtolower, suffix test
  // ---------------------------------------------------------------------

  /** The ASCII lower-casing that `strtolower` applies to each byte. */
  function LowerChar(c: char): char {
    if 'A' <= c <= 'Z' then (c as int + 32) as char else c
  }

  function ToLower(s: string): string {
    seq(|s|, i requires 0 <= i < |s| => LowerChar(s[i]))
  }

  predicate EndsWith(s: string, suffix: string) {
    |suffix| <= |s| && s[|s| - |suffix|..] == suffix
  }

  // ---------------------------------------------------------------------
  // pathinfo and basename, for file names without a directory part
  // ---------------------------------------------------------------------

  /** The position of the last `c` in `s`, or -1 when there is none. */
  function LastIndexOf(c: char, s: string): (r: int)
    ensures -1 <= r < |s|
    ensures r >= 0 ==> s[r] == c
    ensures forall k :: r < k < |s| ==> s[k] != c
  {
    if s == [] then -1
    else if s[|s| - 1] == c then |s| - 1
    else LastIndexOf(c, s[..|s| - 1])
  }

  /** `pathinfo(name, PATHINFO_EXTENSION)`: the text after the last dot, or "". */
  function Extension(name: string): string {
    var d := LastIndexOf('.', name);
    if d < 0 then "" else name[d + 1..]
  }

  /** `pathinfo(name, PATHINFO_FILENAME)`: the name up to its last dot. */
  function FileName(name: string): string {
    var d := LastIndexOf('.', name);
    if d < 0 then name else name[..d]
  }

  /** `basename(path)` for a path that does not end in a slash. */
  function Basename(path: string): string {
    path[LastIndexOf('/', path) + 1..]
  }

  /** A name is its stem, a dot and its extension; the extension holds no dot. */
  lemma PathInfoParts(name: string)
    ensures '.' !in Extension(name)
    ensures '.' in name ==> FileName(name) + "." + Extension(name) == name
    ensures '.' !in name ==> FileName(name) == name && Extension(name) == ""
  {
  }

  /** Conversely, the extension of `stem.ext` is `ext` whenever `ext` holds no dot. */
  lemma PathInfoOfDotted(stem: string, ext: string)
    requires '.' !in ext
    ensures Extension(stem + "." + ext) == ext
    ensures FileName(stem + "." + ext) == stem
  {
    var name := stem + "." + ext;
    var d := LastIndexOf('.', name);
    assert name[|stem|] == '.';
  }

  /** The base name of `dir/file` is `file` when `file` holds no slash. */
  lemma BasenameOfJoin(dir: string, file: string)
    requires dir != [] && dir[|dir| - 1] == '/'
    requires '/' !in file
    ensures Basename(dir + file) == file
  {
    var path := dir + file;
    var d := LastIndexOf('/', path);
    assert path[|dir| - 1] == '/';
    assert d == |dir| - 1;
  }
}
