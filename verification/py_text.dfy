/**
 * The pieces of Python's `str`, `int` and `os.path` (POSIX) behaviour that
 * the server relies on, written out so that the model does what the
 * interpreter does: `str.split()`, `str.split(sep)`, `sep.join(parts)`,
 * `str.endswith`, `int()` on a digit string, `str()` of a natural number,
 * `os.path.join` and `os.path.basename`.
 */
module PyText {
  import opened Wrappers

  // ---------------------------------------------------------------------
  // str.split() with no argument
  // ---------------------------------------------------------------------

  /** The characters for which Python 3's `str.isspace()` holds. */
  predicate IsSpace(c: char) {
    || c == ' ' || c == '\t' || c == '\n' || c == '\r' || c == '\U{0B}' || c == '\U{0C}'
    || ('\U{1C}' <= c <= '\U{1F}') || c == '\U{85}' || c == '\U{A0}' || c == '\U{1680}'
    || ('\U{2000}' <= c <= '\U{200A}') || c == '\U{2028}' || c == '\U{2029}'
    || c == '\U{202F}' || c == '\U{205F}' || c == '\U{3000}'
  }

  /** A non-empty string without whitespace: what `str.split()` yields. */
  predicate IsWord(w: string) {
    w != [] && forall i :: 0 <= i < |w| ==> !IsSpace(w[i])
  }

  /** `s` with its leading whitespace removed. */
  function DropSpace(s: string): (r: string)
    ensures |r| <= |s| && r == s[|s| - |r|..]
    ensures r == [] || !IsSpace(r[0])
  {
    if s != [] && IsSpace(s[0]) then DropSpace(s[1..]) else s
  }

  /** The longest whitespace-free prefix of `s`. */
  function TakeWord(s: string): (r: string)
    ensures |r| <= |s| && r == s[..|r|]
    ensures forall i :: 0 <= i < |r| ==> !IsSpace(r[i])
    ensures s != [] && !IsSpace(s[0]) ==> r != []
    ensures |r| < |s| ==> IsSpace(s[|r|])
  {
    if s != [] && !IsSpace(s[0]) then [s[0]] + TakeWord(s[1..]) else []
  }

  /** `s.split()`: the maximal runs of non-whitespace, in order. */
  function SplitWhitespace(s: string): (r: seq<string>)
    ensures forall i :: 0 <= i < |r| ==> IsWord(r[i])
    decreases |s|
  {
    var t := DropSpace(s);
    if t == [] then []
    else
      var w := TakeWord(t);
      [w] + SplitWhitespace(t[|w|..])
  }

  // ---------------------------------------------------------------------
  // sep.join(parts) and str.split(sep)
  // ---------------------------------------------------------------------

  /** `sep.join(parts)`. */
  function JoinWith(parts: seq<string>, sep: string): string {
    if parts == [] then ""
    else if |parts| == 1 then parts[0]
    else parts[0] + sep + JoinWith(parts[1..], sep)
  }

  /** `s.split(c)` for a one-character separator: never empty, and empty
      fields are kept. */
  function SplitOn(s: string, c: char): (r: seq<string>)
    ensures |r| >= 1
  {
    if s == [] then [""]
    else
      var rest := SplitOn(s[1..], c);
      if s[0] == c then [""] + rest else [[s[0]] + rest[0]] + rest[1..]
  }

  /** `s.find(c)`, as an option. */
  function IndexOf(s: string, c: char): (r: Option<nat>)
    ensures r.None? <==> c !in s
    ensures r.Some? ==> r.value < |s| && s[r.value] == c && c !in s[..r.value]
  {
    if s == [] then None
    else if s[0] == c then Some(0)
    else match IndexOf(s[1..], c)
      case None => None
      case Some(i) => Some(i + 1)
  }

  /** `s.endswith(suffix)`. */
  predicate EndsWith(s: string, suffix: string) {
    |suffix| <= |s| && s[|s| - |suffix|..] == suffix
  }

  // ---------------------------------------------------------------------
  // int(s) on decimal digits, and str(n)
  // ---------------------------------------------------------------------

  predicate IsDigit(c: char) { '0' <= c <= '9' }

  predicate IsDigits(s: string) {
    forall i :: 0 <= i < |s| ==> IsDigit(s[i])
  }

  function DigitChar(d: nat): (c: char)
    requires d < 10
    ensures IsDigit(c) && (c as int) - ('0' as int) == d
  {
    (('0' as int) + d) as char
  }

  /** The value of a string of decimal digits, most significant first. */
  function DigitsValue(s: string): nat
    requires IsDigits(s)
  {
    if s == [] then 0
    else DigitsValue(s[..|s| - 1]) * 10 + ((s[|s| - 1] as int) - ('0' as int))
  }

  /** `int(s)` for a field made of ASCII digits; anything else is refused. */
  function ParseDecimal(s: string): Option<nat> {
    if s != [] && IsDigits(s) then Some(DigitsValue(s)) else None
  }

  /** `str(n)` for a natural number: no sign, no leading zero. */
  function NatToDecimal(n: nat): (s: string)
    ensures s != [] && IsDigits(s)
    ensures s[0] != '0' || |s| == 1
  {
    if n < 10 then [DigitChar(n)]
    else NatToDecimal(n / 10) + [DigitChar(n % 10)]
  }

  // ---------------------------------------------------------------------
  // os.path.join and os.path.basename (POSIX)
  // ---------------------------------------------------------------------

  /** `os.path.join(a, b)`: an absolute `b` replaces `a`; a separator is
      added unless `a` is empty or already ends with one. */
  function PathJoin(a: string, b: string): string {
    if |b| > 0 && b[0] == '/' then b
    else if a == [] || a[|a| - 1] == '/' then a + b
    else a + "/" + b
  }

  /** `os.path.basename(p)`: what follows the last `/`. */
  function Basename(p: string): (r: string)
    ensures '/' !in r
    ensures |r| <= |p| && r == p[|p| - |r|..]
    decreases |p|
  {
    if p == [] || p[|p| - 1] == '/' then []
    else Basename(p[..|p| - 1]) + [p[|p| - 1]]
  }

  /** `map(basename, ps)`. */
  function Basenames(ps: seq<string>): (r: seq<string>)
    ensures |r| == |ps|
    ensures forall i :: 0 <= i < |ps| ==> r[i] == Basename(ps[i])
  {
    seq(|ps|, i requires 0 <= i < |ps| => Basename(ps[i]))
  }

  // =====================================================================
  // Lemmas
  // =====================================================================

  /** Leading whitespace does not change how a string splits. */
  lemma {:induction false} SplitWhitespaceSkipsSpace(sp: string, rest: string)
    requires forall i :: 0 <= i < |sp| ==> IsSpace(sp[i])
    ensures SplitWhitespace(sp + rest) == SplitWhitespace(rest)
  {
    DropSpaceSkips(sp, rest);
  }

  lemma {:induction false} DropSpaceSkips(sp: string, rest: string)
    requires forall i :: 0 <= i < |sp| ==> IsSpace(sp[i])
    ensures DropSpace(sp + rest) == DropSpace(rest)
    decreases |sp|
  {
    if sp != [] {
      assert (sp + rest)[1..] == sp[1..] + rest;
      DropSpaceSkips(sp[1..], rest);
    } else {
      assert sp + rest == rest;
    }
  }

  lemma {:induction false} TakeWordOfWord(w: string, rest: string)
    requires forall i :: 0 <= i < |w| ==> !IsSpace(w[i])
    requires rest == [] || IsSpace(rest[0])
    ensures TakeWord(w + rest) == w
    decreases |w|
  {
    if w != [] {
      assert (w + rest)[1..] == w[1..] + rest;
      TakeWordOfWord(w[1..], rest);
    } else {
      assert w + rest == rest;
    }
  }

  /** A word followed by whitespace splits off as the first field. */
  lemma {:induction false} SplitWhitespaceWord(w: string, sep: string, rest: string)
    requires IsWord(w)
    requires sep != [] && forall i :: 0 <= i < |sep| ==> IsSpace(sep[i])
    ensures SplitWhitespace(w + sep + rest) == [w] + SplitWhitespace(rest)
  {
    var s := w + sep + rest;
    assert s == w + (sep + rest);
    assert DropSpace(s) == s;
    TakeWordOfWord(w, sep + rest);
    assert s[|w|..] == sep + rest;
    SplitWhitespaceSkipsSpace(sep, rest);
  }

  /** A single word splits into itself. */
  lemma SplitWhitespaceOneWord(w: string)
    requires IsWord(w)
    ensures SplitWhitespace(w) == [w]
  {
    assert DropSpace(w) == w;
    TakeWordOfWord(w, []);
    assert w + [] == w;
    assert w[|w|..] == [];
  }

  /** `" ".join(ws).split() == ws` for whitespace-free, non-empty words. */
  lemma {:induction false} SplitJoinedWords(ws: seq<string>)
    requires forall i :: 0 <= i < |ws| ==> IsWord(ws[i])
    ensures SplitWhitespace(JoinWith(ws, " ")) == ws
  {
    if ws == [] {
    } else if |ws| == 1 {
      SplitWhitespaceOneWord(ws[0]);
    } else {
      var tail := JoinWith(ws[1..], " ");
      assert JoinWith(ws, " ") == ws[0] + " " + tail;
      assert IsSpace(" "[0]);
      SplitWhitespaceWord(ws[0], " ", tail);
      assert forall i :: 0 <= i < |ws[1..]| ==> IsWord(ws[1..][i]) by {
        forall i | 0 <= i < |ws[1..]| ensures IsWord(ws[1..][i]) {
          assert ws[1..][i] == ws[i + 1];
        }
      }
      SplitJoinedWords(ws[1..]);
      assert ws == [ws[0]] + ws[1..];
    }
  }

  /** A field without the separator is split off whole. */
  lemma {:induction false} SplitOnField(a: string, c: char, b: string)
    requires c !in a
    ensures SplitOn(a + [c] + b, c) == [a] + SplitOn(b, c)
    decreases |a|
  {
    if a == [] {
      assert a + [c] + b == [c] + b;
      assert ([c] + b)[1..] == b;
    } else {
      assert (a + [c] + b)[1..] == a[1..] + [c] + b;
      SplitOnField(a[1..], c, b);
      assert [a[0]] + a[1..] == a;
    }
  }

  /** A string without the separator is one field. */
  lemma {:induction false} SplitOnNone(a: string, c: char)
    requires c !in a
    ensures SplitOn(a, c) == [a]
    decreases |a|
  {
    if a != [] {
      SplitOnNone(a[1..], c);
      assert [a[0]] + a[1..] == a;
    }
  }

  /** `sep.join(parts).split(sep) == parts` when no part holds `sep`. */
  lemma {:induction false} SplitOnJoined(parts: seq<string>, c: char)
    requires parts != []
    requires forall i :: 0 <= i < |parts| ==> c !in parts[i]
    ensures SplitOn(JoinWith(parts, [c]), c) == parts
  {
    if |parts| == 1 {
      SplitOnNone(parts[0], c);
    } else {
      SplitOnField(parts[0], c, JoinWith(parts[1..], [c]));
      SplitOnJoined(parts[1..], c);
    }
  }

  /** The first occurrence of `c` in `k + [c] + rest` is right after `k`. */
  lemma {:induction false} IndexOfAfter(k: string, c: char, rest: string)
    requires c !in k
    ensures IndexOf(k + [c] + rest, c) == Some(|k|)
    decreases |k|
  {
    if k != [] {
      assert (k + [c] + rest)[1..] == k[1..] + [c] + rest;
      IndexOfAfter(k[1..], c, rest);
    }
  }

  /** `int(str(n)) == n`. */
  lemma {:induction false} DecimalRoundTrip(n: nat)
    ensures ParseDecimal(NatToDecimal(n)) == Some(n)
  {
    DigitsValueOfDecimal(n);
  }

  lemma {:induction false} DigitsValueOfDecimal(n: nat)
    ensures DigitsValue(NatToDecimal(n)) == n
  {
    var s := NatToDecimal(n);
    if n < 10 {
      assert s[..0] == [];
    } else {
      DigitsValueOfDecimal(n / 10);
      assert s[..|s| - 1] == NatToDecimal(n / 10);
    }
  }

  /** A digit string that does not start with `0` has a positive value. */
  lemma {:induction false} LeadingDigitPositive(s: string)
    requires s != [] && IsDigits(s) && s[0] != '0'
    ensures DigitsValue(s) >= 1
    decreases |s|
  {
    if |s| > 1 {
      LeadingDigitPositive(s[..|s| - 1]);
    }
  }

  /** A digit string is one word to `str.split()`. */
  lemma DigitsAreWord(s: string)
    requires s != [] && IsDigits(s)
    ensures IsWord(s)
  {
    forall i | 0 <= i < |s| ensures !IsSpace(s[i]) {
      assert IsDigit(s[i]);
    }
  }

  /** `str(int(s)) == s` for a canonical digit string (no leading zero). */
  lemma {:induction false} DecimalCanonical(s: string)
    requires s != [] && IsDigits(s) && (s[0] != '0' || |s| == 1)
    ensures NatToDecimal(DigitsValue(s)) == s
    decreases |s|
  {
    var d := (s[|s| - 1] as int) - ('0' as int);
    if |s| == 1 {
      assert s[..0] == [];
      assert DigitsValue(s) == d;
      assert [DigitChar(d)] == s;
    } else {
      var p := s[..|s| - 1];
      LeadingDigitPositive(p);
      DecimalCanonical(p);
      var v := DigitsValue(s);
      assert v == DigitsValue(p) * 10 + d;
      assert v / 10 == DigitsValue(p) && v % 10 == d;
      assert DigitChar(d) == s[|s| - 1];
      assert p + [s[|s| - 1]] == s;
    }
  }

  /** The basename of a path built by joining a directory and a plain name
      (no `/`) is that name. */
  lemma {:induction false} BasenameOfJoin(dir: string, name: string)
    requires '/' !in name
    ensures Basename(PathJoin(dir, name)) == name
  {
    if dir == [] || dir[|dir| - 1] == '/' {
      BasenameAfterSlash(dir, name);
    } else {
      assert dir + "/" + name == (dir + "/") + name;
      BasenameAfterSlash(dir + "/", name);
    }
  }

  lemma {:induction false} BasenameAfterSlash(a: string, b: string)
    requires a == [] || a[|a| - 1] == '/'
    requires '/' !in b
    ensures Basename(a + b) == b
    decreases |b|
  {
    if b == [] {
      assert a + b == a;
    } else {
      var p := a + b;
      assert b[|b| - 1] in b;
      assert p[|p| - 1] == b[|b| - 1] != '/';
      assert p[..|p| - 1] == a + b[..|b| - 1];
      assert Basename(p) == Basename(p[..|p| - 1]) + [p[|p| - 1]];
      BasenameAfterSlash(a, b[..|b| - 1]);
      assert b[..|b| - 1] + [b[|b| - 1]] == b;
    }
  }

  /** Joining a directory with two different plain names gives two
      different paths. */
  lemma PathJoinInjective(dir: string, a: string, b: string)
    requires '/' !in a && '/' !in b
    ensures PathJoin(dir, a) == PathJoin(dir, b) ==> a == b
  {
    BasenameOfJoin(dir, a);
    BasenameOfJoin(dir, b);
  }
}
