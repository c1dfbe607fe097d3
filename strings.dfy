/**
 * `String.prototype.indexOf` and `String.prototype.replace` with a string
 * needle and a string replacement: only the first occurrence is replaced,
 * and the replacement's `$` patterns are expanded as GetSubstitution does
 * when there are no capture groups.
 */
module Strings {
  import opened Js

  /** `needle` occurs in `s` starting at position `p`. */
  predicate OccursAt(s: string, needle: string, p: nat) {
    p + |needle| <= |s| && s[p..p + |needle|] == needle
  }

  /** The first occurrence of `needle` at or after `from`. */
  function IndexFrom(s: string, needle: string, from: nat): (r: Option<nat>)
    ensures r.Some? ==> from <= r.value && OccursAt(s, needle, r.value)
    ensures forall p: nat :: from <= p && (r.None? || p < r.value) ==> !OccursAt(s, needle, p)
    decreases |s| - from
  {
    if from + |needle| > |s| then None
    else if OccursAt(s, needle, from) then Some(from)
    else IndexFrom(s, needle, from + 1)
  }

  /** `s.indexOf(needle)`, with None standing for -1. */
  function IndexOf(s: string, needle: string): (r: Option<nat>)
    ensures r.Some? ==> OccursAt(s, needle, r.value)
    ensures forall p: nat :: (r.None? || p < r.value) ==> !OccursAt(s, needle, p)
  {
    IndexFrom(s, needle, 0)
  }

  /**
   * GetSubstitution for a match without capture groups: `$$` gives `$`,
   * `$&` the matched text, `` $` `` the text before the match and `$'` the
   * text after it; every other character, `$` included, is copied.
   */
  function Substitute(rep: string, matched: string, before: string, after: string): string
    decreases |rep|
  {
    if |rep| == 0 then ""
    else if rep[0] == '$' && 2 <= |rep| && rep[1] == '$' then "$" + Substitute(rep[2..], matched, before, after)
    else if rep[0] == '$' && 2 <= |rep| && rep[1] == '&' then matched + Substitute(rep[2..], matched, before, after)
    else if rep[0] == '$' && 2 <= |rep| && rep[1] == '`' then before + Substitute(rep[2..], matched, before, after)
    else if rep[0] == '$' && 2 <= |rep| && rep[1] == '\'' then after + Substitute(rep[2..], matched, before, after)
    else [rep[0]] + Substitute(rep[1..], matched, before, after)
  }

  /** `s.replace(needle, rep)` for a string needle. */
  function ReplaceFirst(s: string, needle: string, rep: string): string {
    match IndexOf(s, needle)
    case None => s
    case Some(p) =>
      s[..p] + Substitute(rep, needle, s[..p], s[p + |needle|..]) + s[p + |needle|..]
  }

  /** A replacement without `$` is inserted literally. */
  lemma {:induction false} SubstituteLiteral(rep: string, matched: string, before: string, after: string)
    requires '$' !in rep
    ensures Substitute(rep, matched, before, after) == rep
    decreases |rep|
  {
    if |rep| > 0 {
      assert rep[0] != '$';
      assert '$' !in rep[1..] by {
        forall i | 0 <= i < |rep[1..]| ensures rep[1..][i] != '$' {
          assert rep[1..][i] == rep[i + 1];
        }
      }
      SubstituteLiteral(rep[1..], matched, before, after);
      assert rep == [rep[0]] + rep[1..];
    }
  }

  /** Without an occurrence of the needle, `replace` returns its input. */
  lemma ReplaceAbsent(s: string, needle: string, rep: string)
    requires forall p: nat :: !OccursAt(s, needle, p)
    ensures ReplaceFirst(s, needle, rep) == s
  {
  }

  /**
   * With an occurrence, exactly the first one is replaced by a `$`-free
   * replacement and everything around it is kept.
   */
  lemma ReplaceLiteralFirst(s: string, needle: string, rep: string, p: nat)
    requires '$' !in rep
    requires OccursAt(s, needle, p)
    requires forall q: nat :: q < p ==> !OccursAt(s, needle, q)
    ensures ReplaceFirst(s, needle, rep) == s[..p] + rep + s[p + |needle|..]
  {
    assert IndexOf(s, needle) == Some(p);
    SubstituteLiteral(rep, needle, s[..p], s[p + |needle|..]);
  }

  /** A needle at the very front is what `replace` strips (with an empty replacement). */
  lemma StripLeading(needle: string, rest: string)
    ensures ReplaceFirst(needle + rest, needle, "") == rest
  {
  }
}
