/**
 * The PHP string primitives the converter relies on: trim() with the default
 * and with an explicit character list, strpos() for the "=>" separator, and
 * explode() on "=>" with a limit of two parts.
 */
module PhpStrings {
  import opened Wrappers

  /** The characters trim() removes when no character list is given: space, tab, LF, CR, NUL, vertical tab. */
  const DefaultTrim: set<char> := {' ', '\t', '\n', '\r', '\0', '\U{000B}'}

  /** Removes the longest prefix made of characters in cs. */
  function TrimLeft(s: string, cs: set<char>): (r: string)
    ensures |r| <= |s| && r == s[|s| - |r|..]
    ensures r == [] || r[0] !in cs
    ensures forall i :: 0 <= i < |s| - |r| ==> s[i] in cs
  {
    if s != [] && s[0] in cs then TrimLeft(s[1..], cs) else s
  }

  /** Removes the longest suffix made of characters in cs. */
  function TrimRight(s: string, cs: set<char>): (r: string)
    ensures |r| <= |s| && r == s[..|r|]
    ensures r == [] || r[|r| - 1] !in cs
    ensures forall i :: |r| <= i < |s| ==> s[i] in cs
  {
    if s != [] && s[|s| - 1] in cs then TrimRight(s[..|s| - 1], cs) else s
  }

  /**
   * PHP's trim($s, $cs): the result is the infix of s that starts after the
   * leading run of cs-characters and ends before the trailing one.
   */
  function Trim(s: string, cs: set<char>): (r: string)
    ensures r == [] || (r[0] !in cs && r[|r| - 1] !in cs)
    ensures var a := |s| - |TrimLeft(s, cs)|;
      a + |r| <= |s| && r == s[a..a + |r|] &&
      (forall i :: 0 <= i < a ==> s[i] in cs) &&
      (forall i :: a + |r| <= i < |s| ==> s[i] in cs)
  {
    TrimRight(TrimLeft(s, cs), cs)
  }

  predicate AllIn(s: string, cs: set<char>)
  {
    forall i :: 0 <= i < |s| ==> s[i] in cs
  }

  lemma {:induction false} TrimLeftSkips(pre: string, rest: string, cs: set<char>)
    requires AllIn(pre, cs)
    ensures TrimLeft(pre + rest, cs) == TrimLeft(rest, cs)
    decreases |pre|
  {
    if pre != [] {
      assert (pre + rest)[0] == pre[0] && (pre + rest)[1..] == pre[1..] + rest;
      TrimLeftSkips(pre[1..], rest, cs);
    } else {
      assert pre + rest == rest;
    }
  }

  lemma {:induction false} TrimRightSkips(rest: string, post: string, cs: set<char>)
    requires AllIn(post, cs)
    ensures TrimRight(rest + post, cs) == TrimRight(rest, cs)
    decreases |post|
  {
    if post != [] {
      var s := rest + post;
      assert s[..|s| - 1] == rest + post[..|post| - 1];
      TrimRightSkips(rest, post[..|post| - 1], cs);
    } else {
      assert rest + post == rest;
    }
  }

  lemma TrimNothing(s: string, cs: set<char>)
    requires s != [] && s[0] !in cs && s[|s| - 1] !in cs
    ensures Trim(s, cs) == s
  {
    assert TrimLeft(s, cs) == s;
  }

  /** Trimming removes exactly a padding of cs-characters around a core whose ends are not in cs. */
  lemma TrimPadded(pre: string, core: string, post: string, cs: set<char>)
    requires AllIn(pre, cs) && AllIn(post, cs)
    requires core != [] && core[0] !in cs && core[|core| - 1] !in cs
    ensures Trim(pre + core + post, cs) == core
  {
    TrimLeftSkips(pre, core + post, cs);
    assert pre + core + post == pre + (core + post);
    assert TrimLeft(core + post, cs) == core + post;
    TrimRightSkips(core, post, cs);
  }

  /** The separator "=>" starts at index i of s. */
  predicate ArrowAt(s: string, i: int)
  {
    0 <= i && i + 1 < |s| && s[i] == '=' && s[i + 1] == '>'
  }

  predicate ContainsArrow(s: string)
  {
    exists i :: 0 <= i < |s| && ArrowAt(s, i)
  }

  function FindArrowFrom(s: string, from: nat): (r: Option<nat>)
    requires from <= |s|
    ensures r.Some? ==> from <= r.value && ArrowAt(s, r.value)
    ensures r.Some? ==> forall j :: from <= j < r.value ==> !ArrowAt(s, j)
    ensures r.None? ==> forall j :: from <= j ==> !ArrowAt(s, j)
    decreases |s| - from
  {
    if from + 1 >= |s| then None
    else if ArrowAt(s, from) then Some(from)
    else FindArrowFrom(s, from + 1)
  }

  /** strpos($s, '=>'): the index of the first occurrence of the separator, if any. */
  function FindArrow(s: string): (r: Option<nat>)
    ensures r.Some? <==> ContainsArrow(s)
    ensures r.Some? ==> ArrowAt(s, r.value) && forall j :: 0 <= j < r.value ==> !ArrowAt(s, j)
  {
    FindArrowFrom(s, 0)
  }

  /**
   * explode('=>', $s, 2) on a string that holds the separator: the parts
   * before and after its first occurrence. The second part may contain "=>".
   */
  function SplitAtArrow(s: string): (r: Option<(string, string)>)
    ensures r.None? <==> !ContainsArrow(s)
    ensures r.Some? ==> s == r.value.0 + "=>" + r.value.1 && !ContainsArrow(r.value.0)
  {
    match FindArrow(s)
    case None => None
    case Some(i) =>
      assert s == s[..i] + "=>" + s[i + 2..];
      assert forall j :: 0 <= j < i && ArrowAt(s[..i], j) ==> ArrowAt(s, j);
      Some((s[..i], s[i + 2..]))
  }

  /** Any split of s at a first occurrence of "=>" is the one explode() produces. */
  lemma SplitAtFirstArrow(left: string, right: string)
    requires !ContainsArrow(left)
    ensures SplitAtArrow(left + "=>" + right) == Some((left, right))
  {
    var s := left + "=>" + right;
    assert ArrowAt(s, |left|);
    var r := SplitAtArrow(s);
    var l := r.value.0;
    if |l| < |left| {
      assert ArrowAt(left, |l|);
    }
    assert l == left;
  }
}
