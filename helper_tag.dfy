/** The helper column names of `convert` as the code writes them
    (wide2long/core.py:55, core.py:67-72): each mapped column is renamed to
    `"__H__" + element + "|" + variable`, and after the melt the prefix is removed and
    the rest split at its first '|'. The reshape model tags columns with the
    `(element, variable)` pair itself; this module shows what the string encoding loses. */
module HelperTag {
  import opened Wrappers
  import opened Model

  const Prefix: string := "__H__"

  /** `f"__H__{elt}|{tgt}"`. */
  function HelperName(t: Target): string
  {
    Prefix + t.element + "|" + t.variable
  }

  /** The position of the first `c` in `s`, if any. */
  function FirstIndexOf(s: string, c: char): (r: Option<nat>)
    ensures r.None? <==> c !in s
    ensures r.Some? ==> r.value < |s| && s[r.value] == c && c !in s[..r.value]
  {
    if |s| == 0 then None
    else if s[0] == c then Some(0)
    else
      match FirstIndexOf(s[1..], c)
      case None => None
      case Some(i) =>
        assert s[..i + 1] == [s[0]] + s[1..][..i];
        Some(i + 1)
  }

  /** `.str.replace("^__H__", "", regex=True).str.split("|", n=1, expand=True)`: the
      element is the text before the first '|', the variable everything after it; a name
      without '|' has no variable part. */
  function SplitHelper(name: string): Option<Target>
  {
    var body := if |name| >= |Prefix| && name[..|Prefix|] == Prefix then name[|Prefix|..] else name;
    match FirstIndexOf(body, '|')
    case None => None
    case Some(i) => Some(Target(body[..i], body[i + 1..]))
  }

  /** `c` occurs before position `i` of `s` only if `FirstIndexOf` says so. */
  lemma NoneBefore(s: string, c: char, i: nat)
    requires i <= |s| && c !in s[..i]
    ensures forall k :: 0 <= k < i ==> s[k] != c
  {
    forall k | 0 <= k < i ensures s[k] != c {
      assert s[..i][k] == s[k];
    }
  }

  /** A `c` at `i` with none before it is the first one. */
  lemma FirstIndexOfAt(s: string, c: char, i: nat)
    requires i < |s| && s[i] == c && c !in s[..i]
    ensures FirstIndexOf(s, c) == Some(i)
  {
    var j := FirstIndexOf(s, c).value;
    NoneBefore(s, c, i);
    NoneBefore(s, c, j);
  }

  /** The split recovers the pair whenever the element contains no '|' (the variable may). */
  lemma HelperRoundTrip(t: Target)
    requires '|' !in t.element
    ensures SplitHelper(HelperName(t)) == Some(t)
  {
    var name := HelperName(t);
    assert name[..|Prefix|] == Prefix;
    var body := name[|Prefix|..];
    assert body == t.element + "|" + t.variable;
    assert body[|t.element|] == '|' && body[..|t.element|] == t.element;
    FirstIndexOfAt(body, '|', |t.element|);
    assert body[|t.element| + 1..] == t.variable;
  }

  /** An element containing '|' is never recovered: the split stops at its first '|'. */
  lemma HelperMisSplit(t: Target)
    requires '|' in t.element
    ensures SplitHelper(HelperName(t)).Some?
    ensures SplitHelper(HelperName(t)) != Some(t)
  {
    var name := HelperName(t);
    assert name[..|Prefix|] == Prefix;
    var body := name[|Prefix|..];
    assert body == t.element + "|" + t.variable;
    var j :| 0 <= j < |t.element| && t.element[j] == '|';
    assert body[j] == '|';
    var i := FirstIndexOf(body, '|').value;
    NoneBefore(body, '|', i);
    assert |body[..i]| < |t.element|;
  }

  /** The element "a|b" with variable "c" comes back as element "a" with variable "b|c",
      and the two pairs share one helper name, so their columns land in the same group. */
  lemma MisSplitExample()
    ensures HelperName(Target("a|b", "c")) == HelperName(Target("a", "b|c"))
    ensures SplitHelper(HelperName(Target("a|b", "c"))) == Some(Target("a", "b|c"))
  {
    HelperRoundTrip(Target("a", "b|c"));
  }
}
