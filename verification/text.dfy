/**
 * The few pieces of Python string behaviour the program relies on:
 * `str.strip()`, `str.split()` with no argument, `sep.join(parts)` and
 * `str.split(sep)` (the last one only as the inverse of `join`).
 */
module Text {

  /** The characters for which Python's `str.isspace()` holds. */
  predicate IsSpace(c: char) {
    c == ' ' || ('\t' <= c <= '\r') || ('\U{1c}' <= c <= '\U{1f}') ||
    c == '\U{85}' || c == '\U{a0}' || c == '\U{1680}' || ('\U{2000}' <= c <= '\U{200a}') ||
    c == '\U{2028}' || c == '\U{2029}' || c == '\U{202f}' || c == '\U{205f}' || c == '\U{3000}'
  }

  predicate AllSpace(s: string) {
    forall k :: 0 <= k < |s| ==> IsSpace(s[k])
  }

  predicate NoSpace(s: string) {
    forall k :: 0 <= k < |s| ==> !IsSpace(s[k])
  }

  predicate StartsWith(s: string, prefix: string) {
    prefix <= s
  }

  /** Number of whitespace characters at the front of `s`. */
  function LeadingSpaces(s: string): (n: nat)
    ensures n <= |s| && AllSpace(s[..n])
    ensures n < |s| ==> !IsSpace(s[n])
  {
    if s != [] && IsSpace(s[0]) then 1 + LeadingSpaces(s[1..]) else 0
  }

  /** Number of whitespace characters at the end of `s`. */
  function TrailingSpaces(s: string): (n: nat)
    ensures n <= |s| && AllSpace(s[|s| - n..])
    ensures n < |s| ==> !IsSpace(s[|s| - n - 1])
  {
    if s != [] && IsSpace(s[|s| - 1]) then 1 + TrailingSpaces(s[..|s| - 1]) else 0
  }

  /**
   * `s.strip()`: the slice of `s` left after removing whitespace at both
   * ends; it is empty exactly when `s` is all whitespace, and otherwise
   * starts and ends with a non-space character.
   */
  function Strip(s: string): (r: string)
    ensures var i := LeadingSpaces(s); i + |r| <= |s| && r == s[i..i + |r|] && AllSpace(s[i + |r|..])
    ensures r == [] <==> AllSpace(s)
    ensures r != [] ==> !IsSpace(r[0]) && !IsSpace(r[|r| - 1])
  {
    var i := LeadingSpaces(s);
    var t := s[i..];
    var r := t[..|t| - TrailingSpaces(t)];
    assert s[i..i + |r|] == r;
    assert s[i + |r|..] == t[|t| - TrailingSpaces(t)..];
    assert i == |s| ==> s[..i] == s;
    r
  }

  /** Number of non-space characters at the front of `s`. */
  function WordLength(s: string): (n: nat)
    ensures n <= |s| && NoSpace(s[..n])
    ensures n < |s| ==> IsSpace(s[n])
  {
    if s != [] && !IsSpace(s[0]) then 1 + WordLength(s[1..]) else 0
  }

  /**
   * `s.split()` with no argument: the maximal runs of non-space characters
   * of `s`, in order; never an empty word.
   */
  function Words(s: string): (r: seq<string>)
    ensures forall k :: 0 <= k < |r| ==> r[k] != [] && NoSpace(r[k])
    ensures r == [] <==> AllSpace(s)
    decreases |s|
  {
    var t := s[LeadingSpaces(s)..];
    if t == [] then
      assert s[..LeadingSpaces(s)] == s;
      []
    else
      var n := WordLength(t);
      [t[..n]] + Words(t[n..])
  }

  lemma {:induction false} WordLengthOfKeyword(keyword: string, rest: string)
    requires NoSpace(keyword) && (rest == [] || IsSpace(rest[0]))
    ensures WordLength(keyword + rest) == |keyword|
    decreases |keyword|
  {
    var s := keyword + rest;
    if keyword == [] {
      assert s == rest;
    } else {
      assert s[0] == keyword[0] && !IsSpace(s[0]);
      assert s[1..] == keyword[1..] + rest;
      assert NoSpace(keyword[1..]) by {
        forall k | 0 <= k < |keyword| - 1 ensures !IsSpace(keyword[1..][k]) {
          assert keyword[1..][k] == keyword[k + 1];
        }
      }
      WordLengthOfKeyword(keyword[1..], rest);
    }
  }

  lemma {:induction false} LeadingSpacesBefore(sp: string, t: string)
    requires AllSpace(sp) && (t == [] || !IsSpace(t[0]))
    ensures LeadingSpaces(sp + t) == |sp|
    decreases |sp|
  {
    var s := sp + t;
    if sp == [] {
      assert s == t;
    } else {
      assert s[0] == sp[0] && IsSpace(s[0]);
      assert s[1..] == sp[1..] + t;
      assert AllSpace(sp[1..]) by {
        forall k | 0 <= k < |sp| - 1 ensures IsSpace(sp[1..][k]) {
          assert sp[1..][k] == sp[k + 1];
        }
      }
      LeadingSpacesBefore(sp[1..], t);
    }
  }

  /**
   * What `split()` returns: leading whitespace is skipped, the first word
   * is the whole run of non-space characters that follows it, and the
   * rest of the words are those of the text after that run. With
   * `Words(s) == []` exactly when `s` is all whitespace, this fixes the
   * words of every text.
   */
  lemma WordsOfRun(sp: string, w: string, rest: string)
    requires AllSpace(sp) && w != [] && NoSpace(w) && (rest == [] || IsSpace(rest[0]))
    ensures Words(sp + w + rest) == [w] + Words(rest)
  {
    var s := sp + w + rest;
    assert s == sp + (w + rest);
    LeadingSpacesBefore(sp, w + rest);
    var t := s[|sp|..];
    assert t == w + rest;
    WordLengthOfKeyword(w, rest);
    assert t[..|w|] == w && t[|w|..] == rest;
  }

  /**
   * A keyword without spaces followed by whitespace and then something that
   * is not whitespace splits into at least two words, the keyword first.
   */
  lemma WordsAfterKeyword(keyword: string, rest: string)
    requires keyword != [] && NoSpace(keyword)
    requires rest != [] && IsSpace(rest[0]) && !AllSpace(rest)
    ensures |Words(keyword + rest)| >= 2 && Words(keyword + rest)[0] == keyword
  {
    var s := keyword + rest;
    assert LeadingSpaces(s) == 0;
    assert s[0..] == s;
    WordLengthOfKeyword(keyword, rest);
    var n := WordLength(s);
    assert s[..n] == keyword && s[n..] == rest;
  }

  /** `sep.join(parts)`. */
  function Join(parts: seq<string>, sep: string): string {
    if parts == [] then []
    else if |parts| == 1 then parts[0]
    else parts[0] + sep + Join(parts[1..], sep)
  }

  /** `s.split(sep)` for a non-empty separator, with `field` the text already read of the current field. */
  function SplitFrom(s: string, sep: string, field: string): (r: seq<string>)
    requires sep != []
    decreases |s|
  {
    if s == [] then [field]
    else if StartsWith(s, sep) then [field] + SplitFrom(s[|sep|..], sep, [])
    else SplitFrom(s[1..], sep, field + [s[0]])
  }

  /** `s.split(sep)`: the fields between the leftmost non-overlapping occurrences of `sep`. */
  function Split(s: string, sep: string): seq<string>
    requires sep != []
  {
    SplitFrom(s, sep, [])
  }

  lemma {:induction false} SplitFromField(p: string, rest: string, sep: string, field: string)
    requires sep != [] && sep[0] !in p
    ensures SplitFrom(p + rest, sep, field) == SplitFrom(rest, sep, field + p)
    decreases |p|
  {
    if p == [] {
      assert p + rest == rest && field + p == field;
    } else {
      var s := p + rest;
      assert s[0] == p[0] && !StartsWith(s, sep);
      assert s[1..] == p[1..] + rest;
      SplitFromField(p[1..], rest, sep, field + [p[0]]);
      assert field + [p[0]] + p[1..] == field + p;
    }
  }

  /**
   * `join` followed by `split` on the same separator gives back the parts,
   * when there is at least one part and no part contains the separator's
   * first character.
   */
  lemma {:induction false} SplitJoin(parts: seq<string>, sep: string)
    requires parts != [] && sep != []
    requires forall i :: 0 <= i < |parts| ==> sep[0] !in parts[i]
    ensures Split(Join(parts, sep), sep) == parts
    decreases |parts|
  {
    if |parts| == 1 {
      SplitFromField(parts[0], [], sep, []);
      assert parts[0] + [] == parts[0] && [] + parts[0] == parts[0];
    } else {
      var tail := Join(parts[1..], sep);
      SplitJoin(parts[1..], sep);
      SplitAfterField(parts[0], sep, tail);
      assert parts == [parts[0]] + parts[1..];
    }
  }

  /** A field without the separator's first character, then the separator, then the rest. */
  lemma SplitAfterField(field: string, sep: string, tail: string)
    requires sep != [] && sep[0] !in field
    ensures Split(field + sep + tail, sep) == [field] + Split(tail, sep)
  {
    assert field + sep + tail == field + (sep + tail);
    SplitFromField(field, sep + tail, sep, []);
    assert [] + field == field;
    assert StartsWith(sep + tail, sep) && (sep + tail)[|sep|..] == tail;
  }
}
