/**
 Register paths: strings whose components are separated by '/'. The standardised notation is the one which joins the
 components, each of them with a separator in front.
 */
module RegisterPaths {
  const SEP: char := '/'

  /** Position of the first separator at or after `from`, or the length of the string. */
  function FindSep(s: string, from: nat): (n: nat)
    requires from <= |s|
    ensures from <= n <= |s|
    ensures n < |s| ==> s[n] == SEP
    ensures forall k :: from <= k < n ==> s[k] != SEP
    decreases |s| - from
  {
    if from == |s| || s[from] == SEP then from else FindSep(s, from + 1)
  }

  /** The components of any string: what is between the separators, without empty components. */
  function Components(s: string): seq<string>
    decreases |s|
  {
    if s == "" then []
    else if s[0] == SEP then Components(s[1..])
    else [s[..FindSep(s, 0)]] + Components(s[FindSep(s, 0)..])
  }

  predicate IsComponent(c: string) {
    c != "" && forall k :: 0 <= k < |c| ==> c[k] != SEP
  }

  /** Every component with a separator in front. */
  function Prefixed(cs: seq<string>): string {
    if cs == [] then "" else [SEP] + cs[0] + Prefixed(cs[1..])
  }

  /** The standardised path. */
  function Join(cs: seq<string>): string {
    if cs == [] then [SEP] else Prefixed(cs)
  }

  predicate DoubledAt(s: string, k: int) {
    0 <= k < |s| - 1 && s[k] == s[k + 1] == SEP
  }

  ghost predicate HasDouble(s: string) {
    exists k :: DoubledAt(s, k)
  }

  /** The standardised notation: a leading separator, no doubled one, and no trailing one except in the path "/". */
  ghost predicate Standard(s: string) {
    && s != "" && s[0] == SEP
    && !HasDouble(s)
    && (|s| > 1 ==> s[|s| - 1] != SEP)
  }

  // ----- components of strings

  lemma {:induction false} FindSepAt(s: string, n: nat)
    requires n <= |s| && (n < |s| ==> s[n] == SEP)
    requires forall k :: 0 <= k < n ==> s[k] != SEP
    ensures FindSep(s, 0) == n
  {
  }

  /** A single component up to the next separator. */
  lemma {:induction false} FirstComponent(c: string, b: string)
    requires IsComponent(c) && (b != "" ==> b[0] == SEP)
    ensures Components(c + b) == [c] + Components(b)
  {
    FindSepAt(c + b, |c|);
    assert (c + b)[..|c|] == c && (c + b)[|c|..] == b;
  }

  lemma {:induction false} ComponentsAreComponents(s: string)
    ensures forall k :: 0 <= k < |Components(s)| ==> IsComponent(Components(s)[k])
    decreases |s|
  {
    if s == "" {
    } else if s[0] == SEP {
      ComponentsAreComponents(s[1..]);
    } else {
      ComponentsAreComponents(s[FindSep(s, 0)..]);
    }
  }

  /** A separator separates. */
  lemma {:induction false} SplitAtSeparator(a: string, b: string)
    ensures Components(a + [SEP] + b) == Components(a) + Components(b)
    decreases |a|
  {
    var s := a + [SEP] + b;
    if a == "" {
      assert s[1..] == b;
    } else if a[0] == SEP {
      assert s[1..] == a[1..] + [SEP] + b;
      SplitAtSeparator(a[1..], b);
    } else {
      var n := FindSep(a, 0);
      var c, rest := a[..n], a[n..];
      assert a == c + rest;
      FirstComponent(c, rest);
      assert s == c + (rest + [SEP] + b);
      FirstComponent(c, rest + [SEP] + b);
      SplitAtSeparator(rest, b);
    }
  }

  /** A separator at the end adds nothing. */
  lemma {:induction false} TrailingSeparator(a: string)
    ensures Components(a + [SEP]) == Components(a)
  {
    SplitAtSeparator(a, "");
    assert a + [SEP] + "" == a + [SEP];
  }

  lemma {:induction false} ComponentsOfPrefixed(cs: seq<string>)
    requires forall k :: 0 <= k < |cs| ==> IsComponent(cs[k])
    ensures Components(Prefixed(cs)) == cs
    ensures Prefixed(cs) != "" ==> Prefixed(cs)[0] == SEP
  {
    if cs != [] {
      ComponentsOfPrefixed(cs[1..]);
      assert Prefixed(cs)[1..] == cs[0] + Prefixed(cs[1..]);
      FirstComponent(cs[0], Prefixed(cs[1..]));
    }
  }

  /** Splitting a standardised path gives back what has been joined. */
  lemma ComponentsOfJoin(cs: seq<string>)
    requires forall k :: 0 <= k < |cs| ==> IsComponent(cs[k])
    ensures Components(Join(cs)) == cs
  {
    ComponentsOfPrefixed(cs);
  }

  /** A standardised path is one component behind the other. */
  lemma {:induction false} FirstOfStandard(s: string)
    requires Standard(s) && |s| > 1
    ensures var n := FindSep(s, 1);
            && IsComponent(s[1..n])
            && Components(s) == [s[1..n]] + Components(s[n..])
            && (n < |s| ==> Standard(s[n..]) && |s[n..]| > 1)
  {
    var n := FindSep(s, 1);
    assert !DoubledAt(s, 0);
    assert s[1..] == s[1..n] + s[n..];
    FirstComponent(s[1..n], s[n..]);
    if n < |s| {
      forall k
        ensures !DoubledAt(s[n..], k)
      {
        assert !DoubledAt(s, n + k);
      }
      assert !DoubledAt(s, n - 1);
    }
  }

  lemma {:induction false} StandardIsPrefixed(s: string)
    requires Standard(s) && |s| > 1
    ensures Components(s) != [] && s == Prefixed(Components(s))
    decreases |s|
  {
    FirstOfStandard(s);
    var n := FindSep(s, 1);
    assert s == [SEP] + s[1..n] + s[n..];
    if n < |s| {
      StandardIsPrefixed(s[n..]);
    }
  }

  /** Joining the components rebuilds a standardised path, hence a path is determined by its components. */
  lemma {:induction false} StandardIsJoin(s: string)
    requires Standard(s)
    ensures s == Join(Components(s))
  {
    if |s| > 1 { StandardIsPrefixed(s); }
  }

  lemma {:induction false} SamePathIffSameComponents(s: string, t: string)
    requires Standard(s) && Standard(t)
    ensures s == t <==> Components(s) == Components(t)
  {
    StandardIsJoin(s);
    StandardIsJoin(t);
  }

  lemma {:induction false} PrefixedIsStandard(cs: seq<string>)
    requires cs != [] && forall k :: 0 <= k < |cs| ==> IsComponent(cs[k])
    ensures Standard(Prefixed(cs)) && |Prefixed(cs)| > 1
  {
    var c, rest := cs[0], Prefixed(cs[1..]);
    var s := Prefixed(cs);
    if |cs| > 1 {
      PrefixedIsStandard(cs[1..]);
    }
    assert s == [SEP] + c + rest;
    forall k
      ensures !DoubledAt(s, k)
    {
      if 0 <= k < |c| {
        assert s[k + 1] == c[k];
      } else if k == |c| {
        assert s[k] == c[k - 1];
      } else if |c| < k < |s| - 1 {
        assert !DoubledAt(rest, k - |c| - 1);
        assert s[k] == rest[k - |c| - 1] && s[k + 1] == rest[k - |c|];
      }
    }
  }

  /** Exactly the joined component lists are in standardised notation; standardising twice is standardising once. */
  lemma {:induction false} JoinIsStandard(s: string)
    ensures Standard(Join(Components(s)))
    ensures Components(Join(Components(s))) == Components(s)
    ensures Standard(s) <==> s == Join(Components(s))
  {
    ComponentsAreComponents(s);
    ComponentsOfJoin(Components(s));
    if Components(s) != [] {
      PrefixedIsStandard(Components(s));
    }
    if Standard(s) { StandardIsJoin(s); }
  }

  // ----- removing extra separators

  /** std::string::find of a doubled separator. */
  method FindDouble(s: string) returns (pos: nat)
    ensures pos <= |s|
    ensures pos == |s| <==> !HasDouble(s)
    ensures pos < |s| ==> DoubledAt(s, pos)
  {
    pos := 0;
    while pos + 1 < |s|
      invariant pos <= |s|
      invariant forall k :: k < pos ==> !DoubledAt(s, k)
    {
      if s[pos] == SEP && s[pos + 1] == SEP {
        assert DoubledAt(s, pos);
        return;
      }
      pos := pos + 1;
    }
    pos := |s|;
  }

  /** Erasing one of two separators keeps the components. */
  lemma {:induction false} EraseDoubled(s: string, pos: nat)
    requires DoubledAt(s, pos)
    ensures Components(s[..pos] + s[pos + 1..]) == Components(s)
  {
    var a, b := s[..pos], s[pos + 2..];
    assert s == a + [SEP] + ([SEP] + b);
    SplitAtSeparator(a, [SEP] + b);
    assert ([SEP] + b)[1..] == b;
    assert s[..pos] + s[pos + 1..] == a + [SEP] + b;
    SplitAtSeparator(a, b);
  }

  /** Terminates for every string; a path with a leading separator is brought to standardised notation. */
  method RemoveExtraSeparators(path: string) returns (s: string)
    ensures Components(s) == Components(path)
    ensures path != "" && path[0] == SEP ==> Standard(s) && s == Join(Components(path))
    ensures Standard(path) ==> s == path
  {
    s := path;
    var pos := FindDouble(s);
    while pos < |s|
      invariant pos <= |s| && (pos == |s| <==> !HasDouble(s))
      invariant pos < |s| ==> DoubledAt(s, pos)
      invariant Components(s) == Components(path)
      invariant path != "" && path[0] == SEP ==> s != "" && s[0] == SEP
      decreases |s|
    {
      EraseDoubled(s, pos);
      s := s[..pos] + s[pos + 1..];
      pos := FindDouble(s);
    }
    if |s| > 1 && s[|s| - 1] == SEP {
      ghost var whole := s;
      s := s[..|s| - 1];
      assert whole == s + [SEP];
      TrailingSeparator(s);
      assert forall k :: DoubledAt(s, k) ==> DoubledAt(whole, k);
      assert !DoubledAt(whole, |s| - 1);
    }
    if path != "" && path[0] == SEP { StandardIsJoin(s); }
    if Standard(path) { StandardIsJoin(path); }
  }

  class RegisterPath {
    var path: string

    ghost predicate Valid()
      reads this
    {
      Standard(path)
    }

    /** The list of components the path stands for. */
    ghost function List(): seq<string>
      reads this
    {
      Components(path)
    }

    constructor (name: string)
      ensures Valid() && List() == Components(name)
    {
      path := [SEP] + name;
      new;
      path := RemoveExtraSeparators(path);
      SplitAtSeparator("", name);
      assert "" + [SEP] + name == [SEP] + name;
    }

    /** operator/= appends the components of the right hand side. */
    method Append(rightHandSide: string)
      requires Valid()
      modifies this
      ensures Valid() && List() == old(List()) + Components(rightHandSide)
    {
      SplitAtSeparator(path, rightHandSide);
      path := path + ([SEP] + rightHandSide);
      assert path == old(path) + [SEP] + rightHandSide;
      path := RemoveExtraSeparators(path);
    }

    /** operator+= concatenates strings, the last component may be continued. */
    method Concatenate(rightHandSide: string)
      requires Valid()
      modifies this
      ensures Valid() && path == Join(Components(old(path) + rightHandSide))
    {
      path := path + rightHandSide;
      path := RemoveExtraSeparators(path);
    }

    /** registerPath-- drops the last component. */
    method CutRight()
      requires Valid()
      modifies this
      ensures Valid()
      ensures List() == if old(List()) == [] then [] else old(List())[..|old(List())| - 1]
    {
      var found := |path| - 1;
      while path[found] != SEP
        invariant 0 <= found < |path|
        invariant forall k :: found < k < |path| ==> path[k] != SEP
        decreases found
      {
        found := found - 1;
      }
      CutRightList(path, found);
      path := if found > 0 then path[..found] else [SEP];
    }

    /** --registerPath drops the first component. */
    method CutLeft()
      requires Valid()
      modifies this
      ensures Valid()
      ensures List() == if old(List()) == [] then [] else old(List())[1..]
    {
      var found := FindSep(path, 1);
      if |path| > 1 { FirstOfStandard(path); }
      if found < |path| {
        path := [SEP] + path[found + 1..];
        assert path == old(path)[found..];
      } else {
        assert path[found..] == "";
        assert |path| == 1 ==> path == [SEP];
        path := [SEP];
        ComponentsOfJoin([]);
      }
    }

    method GetComponents() returns (components: seq<string>)
      requires Valid()
      ensures components == List()
      ensures path == Join(components)
    {
      components := [];
      StandardIsJoin(path);
      if |path| <= 1 {
        return;
      }
      var pos := 0;
      while pos < |path|
        invariant 0 <= pos <= |path|
        invariant pos < |path| ==> Standard(path[pos..]) && |path[pos..]| > 1
        invariant components + Components(path[pos..]) == List()
      {
        hide Components, FindSep, Standard;
        var npos := FindSep(path, pos + 1);
        NextComponent(path, pos);
        components := components + [path[pos + 1..npos]];
        pos := npos;
      }
      assert path[pos..] == "";
    }
  }

  /** One round of the loop of getComponents. */
  lemma NextComponent(s: string, pos: nat)
    requires pos < |s| && Standard(s[pos..]) && |s[pos..]| > 1
    ensures var npos := FindSep(s, pos + 1);
            && Components(s[pos..]) == [s[pos + 1..npos]] + Components(s[npos..])
            && (npos < |s| ==> Standard(s[npos..]) && |s[npos..]| > 1)
  {
    var npos := FindSep(s, pos + 1);
    FirstOfStandard(s[pos..]);
    FindSepShift(s, pos);
    assert s[pos..][1..npos - pos] == s[pos + 1..npos] && s[pos..][npos - pos..] == s[npos..];
  }

  lemma {:induction false} FindSepShift(s: string, pos: nat)
    requires pos < |s|
    ensures FindSep(s[pos..], 1) == FindSep(s, pos + 1) - pos
  {
    var n, m := FindSep(s[pos..], 1), FindSep(s, pos + 1);
    assert forall k :: 0 <= k < |s| - pos ==> s[pos..][k] == s[pos + k];
    assert pos + n < |s| ==> s[pos + n] == SEP;
    assert m < |s| ==> s[pos..][m - pos] == SEP;
  }

  /** Everything before the last separator. */
  lemma {:induction false} CutRightList(s: string, found: nat)
    requires Standard(s) && found < |s| && s[found] == SEP && forall k :: found < k < |s| ==> s[k] != SEP
    ensures found > 0 ==>
        Standard(s[..found]) && Components(s) != [] && Components(s[..found]) == Components(s)[..|Components(s)| - 1]
    ensures found == 0 ==> |Components(s)| <= 1
    ensures Components([SEP]) == []
  {
    var a, b := s[..found], s[found + 1..];
    assert s == a + [SEP] + b;
    SplitAtSeparator(a, b);
    if b != "" {
      FirstComponent(b, "");
      assert b + "" == b;
    }
    if found > 0 {
      assert !DoubledAt(s, found - 1);
      assert forall k :: DoubledAt(a, k) ==> DoubledAt(s, k);
    }
  }
}
