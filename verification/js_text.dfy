/** The JavaScript string operations the bot relies on: `trim`, ASCII
    `toLowerCase`/`toUpperCase`, `split('|')`, `includes`, and the
    regular-expression classes `\s` and `\w`. */
module JsText {

  /** JavaScript's `\s` and the characters `String.prototype.trim` removes:
      the WhiteSpace and LineTerminator code points of ECMAScript. */
  predicate IsSpace(c: char) {
    var n := c as int;
    (9 <= n <= 13) || n == 0x20 || n == 0xA0 || n == 0x1680
    || (0x2000 <= n <= 0x200A) || n == 0x2028 || n == 0x2029
    || n == 0x202F || n == 0x205F || n == 0x3000 || n == 0xFEFF
  }

  predicate NoSpace(s: string) {
    forall i | 0 <= i < |s| :: !IsSpace(s[i])
  }

  predicate IsDigit(c: char) { '0' <= c <= '9' }

  predicate IsUpperAscii(c: char) { 'A' <= c <= 'Z' }

  predicate IsLowerAscii(c: char) { 'a' <= c <= 'z' }

  /** JavaScript's `\w` (no `u` flag): `[A-Za-z0-9_]`. */
  predicate IsWordChar(c: char) {
    IsUpperAscii(c) || IsLowerAscii(c) || IsDigit(c) || c == '_'
  }

  /** `trimStart`: drops the leading whitespace and nothing else. */
  function TrimStart(s: string): (r: string)
    ensures |r| <= |s| && r == s[|s| - |r|..]
    ensures forall i | 0 <= i < |s| - |r| :: IsSpace(s[i])
    ensures r == [] || !IsSpace(r[0])
  {
    if s != [] && IsSpace(s[0]) then TrimStart(s[1..]) else s
  }

  /** `trimEnd`: drops the trailing whitespace and nothing else. */
  function TrimEnd(s: string): (r: string)
    ensures |r| <= |s| && r == s[..|r|]
    ensures forall i | |r| <= i < |s| :: IsSpace(s[i])
    ensures r == [] || !IsSpace(r[|r| - 1])
  {
    if s != [] && IsSpace(s[|s| - 1]) then TrimEnd(s[..|s| - 1]) else s
  }

  /** `trim`: the longest slice of `s` that neither starts nor ends with
      whitespace; it is empty exactly when `s` is all whitespace. */
  function Trim(s: string): (r: string)
    ensures |r| <= |s|
    ensures r == [] || (!IsSpace(r[0]) && !IsSpace(r[|r| - 1]))
    ensures r == [] <==> forall i | 0 <= i < |s| :: IsSpace(s[i])
  {
    TrimEmptyIffAllSpace(s);
    TrimEnd(TrimStart(s))
  }

  lemma TrimEmptyIffAllSpace(s: string)
    ensures TrimEnd(TrimStart(s)) == [] <==> forall i | 0 <= i < |s| :: IsSpace(s[i])
  {
    var t := TrimStart(s);
    if t != [] {
      assert !IsSpace(t[0]);
    }
  }

  /** How many leading characters `trim` drops. */
  function TrimOffset(s: string): nat {
    |s| - |TrimStart(s)|
  }

  /** Trimming keeps a slice of `s`. */
  lemma TrimIsSlice(s: string)
    ensures TrimOffset(s) + |Trim(s)| <= |s|
    ensures Trim(s) == s[TrimOffset(s)..TrimOffset(s) + |Trim(s)|]
    ensures forall i | 0 <= i < TrimOffset(s) :: IsSpace(s[i])
    ensures forall i | TrimOffset(s) + |Trim(s)| <= i < |s| :: IsSpace(s[i])
  {
    var t := TrimStart(s);
    var a := |s| - |t|;
    var r := TrimEnd(t);
    assert r == t[..|r|];
    assert t == s[a..];
    assert r == s[a..a + |r|];
  }

  /** A string that neither starts nor ends with whitespace is its own trim,
      whatever whitespace it holds inside. */
  lemma TrimClean(s: string)
    requires s != [] && !IsSpace(s[0]) && !IsSpace(s[|s| - 1])
    ensures Trim(s) == s
  {
  }

  /** A string with no whitespace is its own trim. */
  lemma TrimNoSpace(s: string)
    requires NoSpace(s)
    ensures Trim(s) == s
  {
    if s != [] {
      assert !IsSpace(s[0]);
      assert !IsSpace(s[|s| - 1]);
    }
  }

  /** ASCII `toLowerCase` of one character. */
  function LowerChar(c: char): (r: char)
    ensures !IsUpperAscii(r)
  {
    if IsUpperAscii(c) then (c as int + 32) as char else c
  }

  /** ASCII `toUpperCase` of one character. */
  function UpperChar(c: char): (r: char)
    ensures !IsLowerAscii(r)
  {
    if IsLowerAscii(c) then (c as int - 32) as char else c
  }

  /** ASCII `toLowerCase` of a string. */
  function Lower(s: string): (r: string)
    ensures |r| == |s|
    ensures forall i | 0 <= i < |s| :: r[i] == LowerChar(s[i])
  {
    seq(|s|, i requires 0 <= i < |s| => LowerChar(s[i]))
  }

  /** Lower-casing touches letters only: it keeps whitespace where it was,
      and a lower-cased string is its own lower case. */
  lemma LowerKeepsSpaces(s: string)
    ensures forall i | 0 <= i < |s| :: IsSpace(Lower(s)[i]) <==> IsSpace(s[i])
    ensures Lower(Lower(s)) == Lower(s)
  {
  }

  /** A string without upper-case letters is its own lower case. */
  lemma LowerNoUpper(s: string)
    requires forall i | 0 <= i < |s| :: !IsUpperAscii(s[i])
    ensures Lower(s) == s
  {
  }

  /** `s.replace(/\s+/g, [r])`: every maximal run of whitespace becomes one
      `r`. */
  function CollapseSpaces(s: string, r: char): (out: string)
    requires !IsSpace(r)
    ensures NoSpace(out)
    ensures |out| <= |s|
    ensures forall i | 0 <= i < |out| :: out[i] == r || out[i] in s
    ensures out == [] <==> s == []
    decreases |s|
  {
    if s == [] then []
    else if IsSpace(s[0]) then
      var rest := TrimStart(s);
      [r] + CollapseSpaces(rest, r)
    else [s[0]] + CollapseSpaces(s[1..], r)
  }

  /** A string without whitespace passes through the collapse unchanged. */
  lemma {:induction false} CollapseNoSpace(s: string, r: char)
    requires !IsSpace(r)
    requires NoSpace(s)
    ensures CollapseSpaces(s, r) == s
    decreases |s|
  {
    if s != [] {
      assert !IsSpace(s[0]);
      CollapseNoSpace(s[1..], r);
    }
  }

  /** The collapse on one run: a whitespace-free prefix is kept, the
      maximal whitespace run after it becomes a single `r`, and the rest is
      collapsed on its own. With `CollapseNoSpace` this fixes the result on
      every string. */
  lemma {:induction false} CollapseRun(a: string, g: string, b: string, r: char)
    requires !IsSpace(r)
    requires NoSpace(a)
    requires g != [] && forall i | 0 <= i < |g| :: IsSpace(g[i])
    requires b == [] || !IsSpace(b[0])
    ensures CollapseSpaces(a + g + b, r) == a + [r] + CollapseSpaces(b, r)
    decreases |a|
  {
    if a == [] {
      assert a + g + b == g + b;
      CollapseAtSpace(g + b, r);
      TrimStartRun(g, b);
    } else {
      assert a + g + b == [a[0]] + (a[1..] + g + b);
      CollapseAtWord(a[0], a[1..] + g + b, r);
      CollapseRun(a[1..], g, b, r);
      assert a == [a[0]] + a[1..];
    }
  }

  /** One step of the collapse at a character that is not whitespace. */
  lemma CollapseAtWord(c: char, t: string, r: char)
    requires !IsSpace(r) && !IsSpace(c)
    ensures CollapseSpaces([c] + t, r) == [c] + CollapseSpaces(t, r)
  {
    assert ([c] + t)[1..] == t;
  }

  /** One step of the collapse at whitespace: the whole leading run goes. */
  lemma CollapseAtSpace(s: string, r: char)
    requires !IsSpace(r) && s != [] && IsSpace(s[0])
    ensures CollapseSpaces(s, r) == [r] + CollapseSpaces(TrimStart(s), r)
  {
  }

  /** `trimStart` removes a leading whitespace run up to the first
      non-space character. */
  lemma {:induction false} TrimStartRun(g: string, b: string)
    requires forall i | 0 <= i < |g| :: IsSpace(g[i])
    requires b == [] || !IsSpace(b[0])
    ensures TrimStart(g + b) == b
    decreases |g|
  {
    if g == [] {
      assert g + b == b;
    } else {
      assert (g + b)[1..] == g[1..] + b;
      TrimStartRun(g[1..], b);
    }
  }

  /** `s.replace(/a/g, b)` for a single character `a`. */
  function ReplaceChar(s: string, a: char, b: char): (r: string)
    ensures |r| == |s|
    ensures forall i | 0 <= i < |s| :: r[i] == (if s[i] == a then b else s[i])
  {
    seq(|s|, i requires 0 <= i < |s| => if s[i] == a then b else s[i])
  }

  predicate StartsWith(s: string, p: string) {
    |p| <= |s| && s[..|p|] == p
  }

  /** `s.includes(t)`. */
  predicate Contains(s: string, t: string)
    decreases |s|
  {
    StartsWith(s, t) || (s != [] && Contains(s[1..], t))
  }

  /** `s.split(d)` for a one-character separator `d`: the pieces between
      the separators, so `""` splits to `[""]` and `"a|"` to `["a", ""]`. */
  function Split(s: string, d: char): (parts: seq<string>)
    ensures |parts| >= 1
    ensures forall i | 0 <= i < |parts| :: d !in parts[i]
    decreases |s|
  {
    if s == [] then [""]
    else
      var rest := Split(s[1..], d);
      if s[0] == d then [""] + rest
      else [[s[0]] + rest[0]] + rest[1..]
  }

  /** `parts.join(d)`, the inverse of `Split` (see `SplitJoin`, `JoinSplit`). */
  function Join(parts: seq<string>, d: char): string
    requires |parts| >= 1
    decreases |parts|
  {
    if |parts| == 1 then parts[0] else parts[0] + [d] + Join(parts[1..], d)
  }

  /** A joined string begins with its first piece. */
  lemma JoinStartsWithFirst(parts: seq<string>, d: char)
    requires |parts| >= 1
    ensures StartsWith(Join(parts, d), parts[0])
  {
    if |parts| > 1 {
      assert (parts[0] + [d] + Join(parts[1..], d))[..|parts[0]|] == parts[0];
    }
  }

  lemma {:induction false} SplitNoSeparator(a: string, d: char)
    requires d !in a
    ensures Split(a, d) == [a]
    decreases |a|
  {
    if a != [] {
      SplitNoSeparator(a[1..], d);
      assert [a[0]] + a[1..] == a;
    }
  }

  /** The first separator ends the first piece. */
  lemma {:induction false} SplitAtFirst(a: string, rest: string, d: char)
    requires d !in a
    ensures Split(a + [d] + rest, d) == [a] + Split(rest, d)
    decreases |a|
  {
    var s := a + [d] + rest;
    if a == [] {
      assert s[1..] == rest;
    } else {
      assert s[1..] == a[1..] + [d] + rest;
      SplitAtFirst(a[1..], rest, d);
      assert [a[0]] + a[1..] == a;
    }
  }

  /** Joining pieces that do not contain the separator and splitting again
      gives the pieces back. */
  lemma {:induction false} SplitJoin(parts: seq<string>, d: char)
    requires |parts| >= 1
    requires forall i | 0 <= i < |parts| :: d !in parts[i]
    ensures Split(Join(parts, d), d) == parts
    decreases |parts|
  {
    if |parts| == 1 {
      SplitNoSeparator(parts[0], d);
    } else {
      SplitJoin(parts[1..], d);
      SplitAtFirst(parts[0], Join(parts[1..], d), d);
      assert [parts[0]] + parts[1..] == parts;
    }
  }

  /** Splitting and joining again gives the string back. */
  lemma {:induction false} JoinSplit(s: string, d: char)
    ensures Join(Split(s, d), d) == s
    decreases |s|
  {
    if s != [] {
      JoinSplit(s[1..], d);
      var rest := Split(s[1..], d);
      if s[0] != d {
        var head := [s[0]] + rest[0];
        var parts := [head] + rest[1..];
        if |rest| == 1 {
          assert Join(parts, d) == head;
        } else {
          assert parts[1..] == rest[1..];
          assert Join(rest, d) == rest[0] + [d] + Join(rest[1..], d);
        }
        assert [s[0]] + s[1..] == s;
      } else {
        assert ([""] + rest)[1..] == rest;
        assert [s[0]] + s[1..] == s;
      }
    }
  }

  /** The two-piece and three-piece encodings the bot writes into buttons. */
  lemma SplitTwo(a: string, b: string, d: char)
    requires d !in a && d !in b
    ensures Split(a + [d] + b, d) == [a, b]
  {
    SplitJoin([a, b], d);
    assert Join([a, b], d) == a + [d] + b;
  }

  lemma SplitThree(a: string, b: string, c: string, d: char)
    requires d !in a && d !in b && d !in c
    ensures Split(a + [d] + b + [d] + c, d) == [a, b, c]
  {
    assert a + [d] + b + [d] + c == a + [d] + (b + [d] + c);
    SplitAtFirst(a, b + [d] + c, d);
    SplitTwo(b, c, d);
  }
}
