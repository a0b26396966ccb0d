/**
 * The two string operations the sign-in service relies on: lowering an
 * address to its canonical key (`String.prototype.toLowerCase`) and the
 * substring test of the nonce check (`String.prototype.includes`).
 * Each is tied by its contract or a lemma to an independent reference
 * definition.
 */
module Strings {

  predicate IsUpper(c: char) { 'A' <= c <= 'Z' }

  /** Lowers one character; only the ASCII letters A-Z are mapped. */
  function LowerChar(c: char): (d: char)
    ensures !IsUpper(d)
    ensures !IsUpper(c) ==> d == c
  {
    if IsUpper(c) then (c as int - 'A' as int + 'a' as int) as char else c
  }

  /** The canonical (lower-case) form of an address. */
  function Lower(s: string): (r: string)
    ensures |r| == |s|
    ensures forall i :: 0 <= i < |r| ==> !IsUpper(r[i])
    ensures forall i :: 0 <= i < |s| && !IsUpper(s[i]) ==> r[i] == s[i]
    ensures CaseVariant(s, r) && CaseVariant(r, s)
  {
    seq(|s|, i requires 0 <= i < |s| => LowerChar(s[i]))
  }

  /** Two characters that are equal, or the upper- and lower-case form of one letter. */
  ghost predicate SameLetter(c: char, d: char)
  {
    || c == d
    || (IsUpper(c) && d as int == c as int + ('a' as int - 'A' as int))
    || (IsUpper(d) && c as int == d as int + ('a' as int - 'A' as int))
  }

  /** `a` and `b` spell the same address up to the case of its letters. */
  ghost predicate CaseVariant(a: string, b: string)
  {
    |a| == |b| && forall i :: 0 <= i < |a| ==> SameLetter(a[i], b[i])
  }

  /** Lowering is a projection: a canonical key is its own canonical key. */
  lemma LowerIdempotent(s: string)
    ensures Lower(Lower(s)) == Lower(s)
  {
  }

  /** Case variants, and only they, share one canonical key. */
  lemma CaseVariantIff(a: string, b: string)
    ensures CaseVariant(a, b) <==> Lower(a) == Lower(b)
  {
  }

  /** `needle` appears in `haystack` starting at index `i`. */
  ghost predicate OccursAt(haystack: string, needle: string, i: int)
  {
    0 <= i && i + |needle| <= |haystack| && haystack[i..i + |needle|] == needle
  }

  /**
   * When the needle is not a prefix of a non-empty haystack, it occurs in the
   * haystack exactly when it occurs in the haystack's tail.
   */
  lemma OccursInTail(haystack: string, needle: string)
    requires |haystack| > 0 && !(needle <= haystack)
    ensures (exists i :: OccursAt(haystack, needle, i)) <==>
            (exists j :: OccursAt(haystack[1..], needle, j))
  {
    var tail := haystack[1..];
    if j :| OccursAt(tail, needle, j) {
      assert haystack[j + 1..j + 1 + |needle|] == tail[j..j + |needle|];
      assert OccursAt(haystack, needle, j + 1);
    }
    if i :| OccursAt(haystack, needle, i) {
      assert i != 0;
      assert tail[i - 1..i - 1 + |needle|] == haystack[i..i + |needle|];
      assert OccursAt(tail, needle, i - 1);
    }
  }

  /**
   * Substring containment, as `haystack.includes(needle)` computes it: true
   * exactly when the needle occurs at some index (always, for the empty needle).
   */
  function Contains(haystack: string, needle: string): (b: bool)
    ensures b <==> exists i :: OccursAt(haystack, needle, i)
    decreases |haystack|
  {
    if needle <= haystack then
      assert OccursAt(haystack, needle, 0);
      true
    else if |haystack| == 0 then false
    else
      OccursInTail(haystack, needle);
      Contains(haystack[1..], needle)
  }

}
