/** String helpers shared by the browser code and the Python package:
    trimming (each language with its own whitespace set), splitting on a
    separator, joining, ASCII case folding and code-point order. */
module Text {

  /** ECMAScript WhiteSpace and LineTerminator code points: what
      `String.prototype.trim` removes and what the regex class `\s` matches. */
  predicate IsJsSpace(c: char) {
    c == '\t' || c == '\n' || c == '\U{B}' || c == '\U{C}' || c == '\r' || c == ' ' ||
    c == '\U{A0}' || c == '\U{1680}' || ('\U{2000}' <= c <= '\U{200A}') ||
    c == '\U{2028}' || c == '\U{2029}' || c == '\U{202F}' || c == '\U{205F}' ||
    c == '\U{3000}' || c == '\U{FEFF}'
  }

  /** The code points for which Python's `str.isspace` holds: what `str.strip()` removes. */
  predicate IsPySpace(c: char) {
    c == '\t' || c == '\n' || c == '\U{B}' || c == '\U{C}' || c == '\r' ||
    ('\U{1C}' <= c <= '\U{1F}') || c == ' ' || c == '\U{85}' || c == '\U{A0}' ||
    c == '\U{1680}' || ('\U{2000}' <= c <= '\U{200A}') || c == '\U{2028}' ||
    c == '\U{2029}' || c == '\U{202F}' || c == '\U{205F}' || c == '\U{3000}'
  }

  predicate IsDigit(c: char) {
    '0' <= c <= '9'
  }

  /** How many characters at the front of `s` are whitespace. */
  function LeadingSpaces(s: string, ws: char -> bool): (k: nat)
    ensures k <= |s|
    ensures forall i :: 0 <= i < k ==> ws(s[i])
    ensures k < |s| ==> !ws(s[k])
  {
    if s == [] || !ws(s[0]) then 0 else 1 + LeadingSpaces(s[1..], ws)
  }

  /** How many characters at the back of `s` are whitespace. */
  function TrailingSpaces(s: string, ws: char -> bool): (k: nat)
    ensures k <= |s|
    ensures forall i :: |s| - k <= i < |s| ==> ws(s[i])
    ensures k < |s| ==> !ws(s[|s| - 1 - k])
  {
    if s == [] || !ws(s[|s| - 1]) then 0 else 1 + TrailingSpaces(s[..|s| - 1], ws)
  }

  /** `s` without its leading and trailing whitespace. */
  function Trim(s: string, ws: char -> bool): (r: string)
    ensures |r| <= |s|
    ensures r == [] || (!ws(r[0]) && !ws(r[|r| - 1]))
    ensures (|s| == 0 || (!ws(s[0]) && !ws(s[|s| - 1]))) ==> r == s
    ensures (forall i :: 0 <= i < |s| ==> ws(s[i])) <==> r == []
    ensures forall c :: c in r ==> c in s
  {
    var (a, b) := TrimBounds(s, ws);
    TrimSlice(s, ws, a, b);
    s[a..b]
  }

  /** Trimming removes exactly the outer whitespace: the result is a slice
      `s[a..b]` with only whitespace before `a` and from `b` on, and, by the
      ensures of `Trim`, none at either end of the slice. */
  lemma TrimOuterSpace(s: string, ws: char -> bool)
    ensures exists a, b ::
              && 0 <= a <= b <= |s| && Trim(s, ws) == s[a..b]
              && (forall i :: 0 <= i < a ==> ws(s[i]))
              && (forall i :: b <= i < |s| ==> ws(s[i]))
  {
    var (a, b) := TrimBounds(s, ws);
    assert Trim(s, ws) == s[a..b];
  }

  /** Where the text without its outer whitespace starts and ends. */
  function TrimBounds(s: string, ws: char -> bool): (bounds: (nat, nat))
    ensures bounds.0 <= bounds.1 <= |s|
    ensures forall i :: 0 <= i < bounds.0 ==> ws(s[i])
    ensures forall i :: bounds.1 <= i < |s| ==> ws(s[i])
    ensures bounds.0 < |s| ==> !ws(s[bounds.0])
    ensures bounds.0 < bounds.1 ==> !ws(s[bounds.1 - 1])
  {
    var a := LeadingSpaces(s, ws);
    var t := s[a..];
    var b := a + (|t| - TrailingSpaces(t, ws));
    assert forall i :: b <= i < |s| ==> s[i] == t[i - a];
    (a, b)
  }

  /** The facts `Trim` promises, for a slice with whitespace only outside it
      and none at its ends. */
  lemma TrimSlice(s: string, ws: char -> bool, a: nat, b: nat)
    requires a <= b <= |s|
    requires forall i :: 0 <= i < a ==> ws(s[i])
    requires forall i :: b <= i < |s| ==> ws(s[i])
    requires a < |s| ==> !ws(s[a])
    requires a < b ==> !ws(s[b - 1])
    ensures var r := s[a..b];
      && (r == [] || (!ws(r[0]) && !ws(r[|r| - 1])))
      && ((|s| == 0 || (!ws(s[0]) && !ws(s[|s| - 1]))) ==> r == s)
      && ((forall i :: 0 <= i < |s| ==> ws(s[i])) <==> r == [])
      && (forall c :: c in r ==> c in s)
  {
    var r := s[a..b];
    if |s| > 0 && !ws(s[0]) && !ws(s[|s| - 1]) {
      assert a == 0;
      assert b == |s|;
    }
    assert forall c :: c in r ==> c in s;
  }

  /** JavaScript `String.prototype.trim`. */
  function JsTrim(s: string): string {
    Trim(s, IsJsSpace)
  }

  /** Python `str.strip()` with no argument. */
  function PyStrip(s: string): string {
    Trim(s, IsPySpace)
  }

  /** Lower-casing of one character, for the ASCII letters (see README, "Left out"). */
  function LowerChar(c: char): (r: char)
    ensures 'A' <= c <= 'Z' ==> r as int == c as int + 32
    ensures !('A' <= c <= 'Z') ==> r == c
    ensures !('A' <= r <= 'Z')
  {
    if 'A' <= c <= 'Z' then (c as int + 32) as char else c
  }

  /** `toLocaleLowerCase` / `casefold`, on ASCII letters. */
  function Lower(s: string): (r: string)
    ensures |r| == |s|
    ensures forall i :: 0 <= i < |s| ==> r[i] == LowerChar(s[i])
  {
    if s == [] then [] else [LowerChar(s[0])] + Lower(s[1..])
  }

  lemma {:induction false} LowerAppend(a: string, b: string)
    ensures Lower(a + b) == Lower(a) + Lower(b)
  {
    if a == [] {
      assert a + b == b;
    } else {
      assert (a + b)[1..] == a[1..] + b;
      LowerAppend(a[1..], b);
    }
  }

  /** `String.prototype.split(sep)` / `str.split(sep)` for a one-character separator:
      one more piece than there are separators, none of them holding the separator. */
  function Split(s: string, sep: char): (parts: seq<string>)
    ensures |parts| >= 1
    ensures forall p :: p in parts ==> sep !in p
  {
    if s == [] then [""]
    else
      var rest := Split(s[1..], sep);
      if s[0] == sep then [""] + rest else [[s[0]] + rest[0]] + rest[1..]
  }

  /** The prefix one longer is the prefix and the next element. */
  lemma PrefixSnoc<T>(s: seq<T>, i: nat)
    requires i < |s|
    ensures s[..i + 1] == s[..i] + [s[i]]
  {
  }

  lemma PrefixAll<T>(s: seq<T>)
    ensures s[..|s|] == s
  {
  }

  /** A non-empty sequence is its front and its last element. */
  lemma LastSplit<T>(s: seq<T>)
    requires s != []
    ensures s == s[..|s| - 1] + [s[|s| - 1]]
    ensures forall x :: x in s <==> x in s[..|s| - 1] || x == s[|s| - 1]
  {
  }

  /** `Array.prototype.join(sep)` / `sep.join(parts)`. */
  function Join<T>(parts: seq<seq<T>>, sep: seq<T>): seq<T> {
    if |parts| == 0 then []
    else if |parts| == 1 then parts[0]
    else parts[0] + sep + Join(parts[1..], sep)
  }

  /** Splitting and joining back with the same separator gives the input back. */
  lemma {:induction false} JoinSplit(s: string, sep: char)
    ensures Join(Split(s, sep), [sep]) == s
  {
    if s != [] {
      var rest := Split(s[1..], sep);
      JoinSplit(s[1..], sep);
      if s[0] == sep {
        assert Split(s, sep) == [""] + rest;
        assert Join([""] + rest, [sep]) == "" + [sep] + Join(rest, [sep]) by {
          assert ([""] + rest)[1..] == rest;
        }
      } else {
        var parts := [[s[0]] + rest[0]] + rest[1..];
        assert Split(s, sep) == parts;
        if |rest| == 1 {
          assert Join(parts, [sep]) == [s[0]] + rest[0];
        } else {
          assert parts[1..] == rest[1..];
          assert Join(rest, [sep]) == rest[0] + [sep] + Join(rest[1..], [sep]);
          assert Join(parts, [sep]) == [s[0]] + rest[0] + [sep] + Join(rest[1..], [sep]);
        }
      }
    }
  }

  /** The non-empty strings of `parts`, in order: `filter(Boolean)` / `if part`. */
  function NonEmpty(parts: seq<string>): (r: seq<string>)
    ensures |r| <= |parts|
    ensures forall p :: p in r <==> p in parts && p != ""
  {
    if parts == [] then []
    else if parts[0] == "" then NonEmpty(parts[1..])
    else [parts[0]] + NonEmpty(parts[1..])
  }

  predicate StartsWith(s: string, prefix: string) {
    |prefix| <= |s| && s[..|prefix|] == prefix
  }

  /** `needle` occurs in `hay` starting at index `i`. */
  predicate OccursAt(hay: string, needle: string, i: int) {
    0 <= i <= |hay| - |needle| && hay[i..i + |needle|] == needle
  }

  /** `String.prototype.includes`: `needle` occurs in `hay` at some index. */
  predicate Contains(hay: string, needle: string) {
    exists i | 0 <= i <= |hay| - |needle| :: OccursAt(hay, needle, i)
  }

  /** Code-point lexicographic order on strings: the comparison used as the
      model of a collation (see README, "Left out"). */
  predicate StrLeq(a: string, b: string)
    decreases |a|
  {
    if a == [] then true
    else if b == [] then false
    else if a[0] != b[0] then a[0] < b[0]
    else StrLeq(a[1..], b[1..])
  }

  lemma {:induction false} StrLeqTotal(a: string, b: string)
    ensures StrLeq(a, b) || StrLeq(b, a)
    decreases |a|
  {
    if a != [] && b != [] && a[0] == b[0] {
      StrLeqTotal(a[1..], b[1..]);
    }
  }

  lemma {:induction false} StrLeqAntisymmetric(a: string, b: string)
    requires StrLeq(a, b) && StrLeq(b, a)
    ensures a == b
    decreases |a|
  {
    if a != [] && b != [] {
      StrLeqAntisymmetric(a[1..], b[1..]);
      assert a == [a[0]] + a[1..] && b == [b[0]] + b[1..];
    }
  }

  lemma {:induction false} StrLeqTransitive(a: string, b: string, c: string)
    requires StrLeq(a, b) && StrLeq(b, c)
    ensures StrLeq(a, c)
    decreases |a|
  {
    if a != [] && b != [] && c != [] && a[0] == b[0] && b[0] == c[0] {
      StrLeqTransitive(a[1..], b[1..], c[1..]);
    }
  }

  /** Case-insensitive order: `localeCompare(…, { sensitivity: "base" }) <= 0`
      and `casefold()` comparison, both modelled on ASCII case folding. */
  predicate FoldLeq(a: string, b: string) {
    StrLeq(Lower(a), Lower(b))
  }

  lemma FoldLeqTotalPreorder(a: string, b: string, c: string)
    ensures FoldLeq(a, b) || FoldLeq(b, a)
    ensures FoldLeq(a, b) && FoldLeq(b, c) ==> FoldLeq(a, c)
  {
    StrLeqTotal(Lower(a), Lower(b));
    if FoldLeq(a, b) && FoldLeq(b, c) {
      StrLeqTransitive(Lower(a), Lower(b), Lower(c));
    }
  }
}
