/** String helpers shared by the suffix validator and the transfer model.
    Java's `String.endsWith` and the first-hit search over a suffix list. */
module Strings {

  /** Java's `s.endsWith(suffix)`: the last |suffix| characters of s are suffix. */
  predicate EndsWith(s: string, suffix: string) {
    |suffix| <= |s| && s[|s| - |suffix|..] == suffix
  }

  /** Whether s ends with one of the suffixes, tried in list order and stopping at the first
      that matches. */
  predicate EndsWithAny(s: string, suffixes: seq<string>)
    ensures EndsWithAny(s, suffixes) <==> exists i :: 0 <= i < |suffixes| && EndsWith(s, suffixes[i])
  {
    if suffixes == [] then false
    else if EndsWith(s, suffixes[0]) then true
    else EndsWithAny(s, suffixes[1..])
  }

  /** The search only depends on which suffixes are listed. */
  lemma EndsWithAnyMembers(s: string, suffixes: seq<string>)
    ensures EndsWithAny(s, suffixes) <==> exists x :: x in suffixes && EndsWith(s, x)
  {
    if EndsWithAny(s, suffixes) {
      var i :| 0 <= i < |suffixes| && EndsWith(s, suffixes[i]);
      assert suffixes[i] in suffixes;
    }
  }

  /** Every string ends with itself. */
  lemma EndsWithSelf(s: string)
    ensures EndsWith(s, s)
  {
  }

  /** endsWith is transitive: a string ending with t ends with every suffix of t. */
  lemma EndsWithTrans(s: string, t: string, u: string)
    requires EndsWith(s, t) && EndsWith(t, u)
    ensures EndsWith(s, u)
  {
    assert s[|s| - |u|..] == s[|s| - |t|..][|t| - |u|..];
  }

  /** A string ending with `p + q` ends with q. */
  lemma EndsWithConcat(s: string, p: string, q: string)
    ensures EndsWith(s, p + q) ==> EndsWith(s, q)
  {
    assert EndsWith(p + q, q) by {
      assert (p + q)[|p|..] == q;
    }
    if EndsWith(s, p + q) {
      EndsWithTrans(s, p + q, q);
    }
  }

  /** A string does not end with a suffix whose last character differs from its own. */
  lemma LastCharDiffers(s: string, u: string)
    requires |s| > 0 && |u| > 0 && s[|s| - 1] != u[|u| - 1]
    ensures !EndsWith(s, u)
  {
    if |u| <= |s| {
      assert s[|s| - |u|..][|u| - 1] == s[|s| - 1];
    }
  }

  /** Whether `s + t` ends with a suffix no longer than t is decided by t alone. */
  lemma EndsWithAppended(s: string, t: string, u: string)
    requires |u| <= |t|
    ensures EndsWith(s + t, u) <==> EndsWith(t, u)
  {
    assert (s + t)[|s + t| - |u|..] == t[|t| - |u|..];
  }

  /** Appending a separator and a name to a root gives a path that determines the name. */
  lemma ChildPathInjective(root: string, a: string, b: string)
    requires root + "/" + a == root + "/" + b
    ensures a == b
  {
    var n := |root + "/"|;
    assert (root + "/" + a)[n..] == a;
    assert (root + "/" + b)[n..] == b;
  }
}
