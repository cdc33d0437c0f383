/** The string operations the pages' search boxes and select widgets rely on:
    `toLowerCase`, `includes` and `replace` with a one-character pattern. */
module Text {
  import opened Seqs

  predicate IsUpper(c: char) {
    'A' <= c <= 'Z'
  }

  /** Lower-casing of one character (ASCII letters only). */
  function LowerChar(c: char): char {
    if IsUpper(c) then (c as int + 32) as char else c
  }

  /** `s.toLowerCase()` over ASCII: every letter lowered, everything else kept. */
  function Lower(s: string): (r: string)
    ensures |r| == |s|
    ensures forall i :: 0 <= i < |s| ==> r[i] == LowerChar(s[i])
  {
    if s == [] then []
    else
      var rest := Lower(s[1..]);
      assert forall i :: 1 <= i < |s| ==> s[i] == s[1..][i - 1];
      [LowerChar(s[0])] + rest
  }

  /** A lower-cased string holds no upper-case letter, and lowering it again
      changes nothing: comparing two lowered strings is case-insensitive. */
  lemma LowerIsLower(s: string)
    ensures forall i :: 0 <= i < |Lower(s)| ==> !IsUpper(Lower(s)[i])
    ensures Lower(Lower(s)) == Lower(s)
  {
  }

  /** `t` occurs in `s` starting at position `i`. */
  predicate OccursAt(s: string, t: string, i: nat) {
    i + |t| <= |s| && s[i..i + |t|] == t
  }

  /** `s.includes(t)`, scanning `s` from the left. */
  function Contains(s: string, t: string): bool
    decreases |s|
  {
    if |t| > |s| then false
    else if t <= s then true
    else Contains(s[1..], t)
  }

  /** `Contains` is exactly "occurs at some position". */
  lemma {:induction false} ContainsIff(s: string, t: string)
    ensures Contains(s, t) <==> exists i: nat :: OccursAt(s, t, i)
    decreases |s|
  {
    if |t| > |s| {
      assert forall i: nat :: !OccursAt(s, t, i);
    } else if t <= s {
      assert OccursAt(s, t, 0);
    } else {
      ContainsIff(s[1..], t);
      forall i: nat | OccursAt(s[1..], t, i) ensures OccursAt(s, t, i + 1) {
        assert s[i + 1..i + 1 + |t|] == s[1..][i..i + |t|];
      }
      forall i: nat | OccursAt(s, t, i) ensures i >= 1 && OccursAt(s[1..], t, i - 1) {
        assert i != 0;
        assert s[1..][i - 1..i - 1 + |t|] == s[i..i + |t|];
      }
    }
  }

  /** The empty string occurs in every string. */
  lemma ContainsEmpty(s: string)
    ensures Contains(s, "")
  {
  }

  /** Only the empty string occurs in the empty string. */
  lemma ContainedInEmpty(t: string)
    ensures Contains("", t) <==> t == ""
  {
  }

  /** `s.replace(from, to)` with a one-character string pattern: only the FIRST
      occurrence is replaced, as JavaScript does for a string pattern. */
  function ReplaceFirst(s: string, from: char, to: char): string {
    if s == [] then []
    else if s[0] == from then [to] + s[1..]
    else [s[0]] + ReplaceFirst(s[1..], from, to)
  }

  /** Replacing the first occurrence is a point update at `IndexOf(s, from)`,
      or nothing at all when `from` does not occur. */
  lemma {:induction false} ReplaceFirstAtIndexOf(s: string, from: char, to: char)
    ensures IndexOf(s, from) == -1 ==> ReplaceFirst(s, from, to) == s
    ensures 0 <= IndexOf(s, from) ==> ReplaceFirst(s, from, to) == s[IndexOf(s, from) := to]
  {
    if s != [] && s[0] != from {
      ReplaceFirstAtIndexOf(s[1..], from, to);
      assert s == [s[0]] + s[1..];
      if 0 <= IndexOf(s[1..], from) {
        var k := IndexOf(s[1..], from);
        assert IndexOf(s, from) == k + 1;
        assert [s[0]] + s[1..][k := to] == s[k + 1 := to];
      }
    }
  }

  /** Strict lexicographic order by code point: the order in which Firestore
      lists document ids (strings compare by their UTF-8 bytes, which orders
      them as their code points). */
  predicate Precedes(a: string, b: string)
    decreases |a|
  {
    if a == [] then b != []
    else if b == [] then false
    else if a[0] != b[0] then a[0] < b[0]
    else Precedes(a[1..], b[1..])
  }

  lemma {:induction false} PrecedesIrreflexive(a: string)
    ensures !Precedes(a, a)
    decreases |a|
  {
    if a != [] {
      PrecedesIrreflexive(a[1..]);
    }
  }

  lemma {:induction false} PrecedesTransitive(a: string, b: string, c: string)
    requires Precedes(a, b) && Precedes(b, c)
    ensures Precedes(a, c)
    decreases |a|
  {
    if a != [] && a[0] == b[0] && b[0] == c[0] {
      PrecedesTransitive(a[1..], b[1..], c[1..]);
    }
  }

  /** Any two different ids are ordered one way or the other. */
  lemma {:induction false} PrecedesTotal(a: string, b: string)
    requires a != b
    ensures Precedes(a, b) || Precedes(b, a)
    decreases |a|
  {
    if a != [] && b != [] && a[0] == b[0] {
      assert a == [a[0]] + a[1..] && b == [b[0]] + b[1..];
      PrecedesTotal(a[1..], b[1..]);
    }
  }
}
