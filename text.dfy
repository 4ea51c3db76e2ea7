/**
 * Character and string helpers shared by the keyboard converter and the
 * search predicates: Java's Character.toLowerCase on the alphabets the
 * application stores (Latin and Cyrillic), substring containment, and the
 * SQL LIKE operator with its two wildcards.
 */
module Text {

  /**
   * Java's Character.toLowerCase for Latin A-Z, Cyrillic U+0400..U+042F, and
   * the two other characters whose lower case is ASCII: U+0130 (capital I with
   * dot above) and U+212A (Kelvin sign). Other characters are kept.
   */
  function Lower(c: char): (r: char)
    ensures IsCyrillic(c) <==> IsCyrillic(r)
    ensures c < 128 as char ==> r < 128 as char
    ensures r < 128 as char ==> c < 128 as char || c == '\U{0130}' || c == '\U{212A}'
  {
    if 'A' <= c <= 'Z' then (c as int + 32) as char
    else if '\U{0410}' <= c <= '\U{042F}' then (c as int + 32) as char
    else if '\U{0400}' <= c <= '\U{040F}' then (c as int + 80) as char
    else if c == '\U{0130}' then 'i'
    else if c == '\U{212A}' then 'k'
    else c
  }

  /** The Cyrillic block U+0400..U+045F (upper and lower case letters). */
  predicate IsCyrillic(c: char) {
    '\U{0400}' <= c <= '\U{045F}'
  }

  lemma LowerIdempotent(c: char)
    ensures Lower(Lower(c)) == Lower(c)
  {
  }

  /** The `lower()` the search predicates apply to a column and to the searched value, taken character by character through `Lower`. */
  function LowerStr(s: string): (r: string)
    ensures |r| == |s|
    ensures forall i :: 0 <= i < |s| ==> r[i] == Lower(s[i])
  {
    seq(|s|, i requires 0 <= i < |s| => Lower(s[i]))
  }

  lemma LowerStrConcat(a: string, b: string)
    ensures LowerStr(a + b) == LowerStr(a) + LowerStr(b)
  {
    assert forall i :: 0 <= i < |a + b| ==> LowerStr(a + b)[i] == (LowerStr(a) + LowerStr(b))[i];
  }

  /**
   * String.length: the number of UTF-16 code units, two for a character
   * outside the Basic Multilingual Plane.
   */
  function Utf16Length(s: string): (n: nat)
    ensures |s| <= n <= 2 * |s|
  {
    if s == [] then 0 else (if s[0] > '\U{FFFF}' then 2 else 1) + Utf16Length(s[1..])
  }

  /** Only the Basic Multilingual Plane counts one unit per character. */
  lemma {:induction false} Utf16LengthBmp(s: string)
    requires forall i :: 0 <= i < |s| ==> s[i] <= '\U{FFFF}'
    ensures Utf16Length(s) == |s|
  {
    if s != [] {
      Utf16LengthBmp(s[1..]);
    }
  }

  /** A string of characters outside the Basic Multilingual Plane counts two units per character. */
  lemma {:induction false} Utf16LengthAstral(s: string)
    requires forall i :: 0 <= i < |s| ==> s[i] > '\U{FFFF}'
    ensures Utf16Length(s) == 2 * |s|
  {
    if s != [] {
      Utf16LengthAstral(s[1..]);
    }
  }

  /** `v` occurs in `t` starting at position `k`. */
  predicate OccursAt(t: string, v: string, k: int) {
    0 <= k <= |t| - |v| && t[k..k + |v|] == v
  }

  /** `v` occurs in `t` as a contiguous block. */
  predicate Contains(t: string, v: string) {
    exists k | 0 <= k <= |t| - |v| :: OccursAt(t, v, k)
  }

  /**
   * `v` has neither of the SQL LIKE wildcards, nor the backslash that several
   * databases take as the escape character when the query names none.
   */
  predicate NoWildcards(v: string) {
    forall i :: 0 <= i < |v| ==> v[i] != '%' && v[i] != '_' && v[i] != '\\'
  }

  /**
   * SQL `t LIKE p` with no escape character: `%` matches any run of
   * characters, `_` exactly one, every other character itself.
   */
  function LikeMatch(t: string, p: string): bool
    decreases |p|
  {
    if p == [] then t == []
    else if p[0] == '%' then exists k | 0 <= k <= |t| :: LikeMatch(t[k..], p[1..])
    else if p[0] == '_' then t != [] && LikeMatch(t[1..], p[1..])
    else t != [] && t[0] == p[0] && LikeMatch(t[1..], p[1..])
  }

  /** Lower-casing keeps a value free of wildcards. */
  lemma LowerStrNoWildcards(v: string)
    requires NoWildcards(v)
    ensures NoWildcards(LowerStr(v))
  {
  }

  /** A wildcard-free pattern followed by `%` matches exactly the texts it is a prefix of. */
  lemma {:induction false} LikePrefix(t: string, v: string)
    requires NoWildcards(v)
    ensures LikeMatch(t, v + "%") <==> |v| <= |t| && t[..|v|] == v
  {
    if v == [] {
      assert v + "%" == "%";
      assert LikeMatch(t[|t|..], []);
    } else {
      assert (v + "%")[1..] == v[1..] + "%";
      LikePrefix(if t == [] then t else t[1..], v[1..]);
      if t != [] && |v| <= |t| && t[..|v|] == v {
        assert t[1..][..|v[1..]|] == v[1..];
      }
      if t != [] && t[0] == v[0] && |v[1..]| <= |t[1..]| && t[1..][..|v[1..]|] == v[1..] {
        assert t[..|v|] == [t[0]] + t[1..][..|v[1..]|];
      }
    }
  }

  /** For wildcard-free values, `LIKE '%v%'` is the substring test. */
  lemma LikeIsContains(t: string, v: string)
    requires NoWildcards(v)
    ensures LikeMatch(t, "%" + v + "%") <==> Contains(t, v)
  {
    var p := "%" + v + "%";
    assert p[1..] == v + "%";
    if LikeMatch(t, p) {
      var k :| 0 <= k <= |t| && LikeMatch(t[k..], v + "%");
      LikePrefix(t[k..], v);
      assert t[k..k + |v|] == t[k..][..|v|];
      assert OccursAt(t, v, k);
    }
    if Contains(t, v) {
      var k :| 0 <= k <= |t| - |v| && OccursAt(t, v, k);
      LikePrefix(t[k..], v);
      assert t[k..][..|v|] == t[k..k + |v|];
      assert LikeMatch(t[k..], p[1..]);
    }
  }
}
