/** `ptiter`: a depth-first walk over the pages of a page table that keeps no stack and goes up by
    descending again from the root. */
module PtIter {
  import opened Arithmetic
  import Kalloc
  import opened Options
  import opened PageFormat
  import opened PageTable
  import Sequences

  // ---------------------------------------------------------------------
  // The order in which pages should come: children before parents, lower entries first

  /** The pages reached through entry `i` of page `f`. */
  ghost function Below(m: Memory, t: Tables, f: nat, i: nat): seq<nat>
    requires Forest(m, t) && f in t && i < FANOUT
    decreases t[f].level, FANOUT - i, 0
  {
    if t[f].level > 0 && Points(m[f][i])
    then PostFrom(m, t, m[f][i].frame, 0) + [m[f][i].frame]
    else []
  }

  /** The pages reached through entries `i` and up of page `f`. */
  ghost function PostFrom(m: Memory, t: Tables, f: nat, i: nat): seq<nat>
    requires Forest(m, t) && f in t && i <= FANOUT
    decreases t[f].level, FANOUT - i, 1
  {
    if i == FANOUT then [] else Below(m, t, f, i) + PostFrom(m, t, f, i + 1)
  }

  ghost function PostOrder(m: Memory, t: Tables, root: nat): seq<nat>
    requires Forest(m, t) && Root(t, root)
  {
    PostFrom(m, t, root, 0)
  }

  // ---------------------------------------------------------------------
  // Every page below the root comes exactly once, after its children

  lemma {:induction false} LeafHasNoneBelow(m: Memory, t: Tables, f: nat, i: nat)
    requires Forest(m, t) && f in t && t[f].level == 0 && i <= FANOUT
    ensures PostFrom(m, t, f, i) == []
    decreases FANOUT - i
  {
    if i < FANOUT {
      LeafHasNoneBelow(m, t, f, i + 1);
    }
  }

  lemma {:induction false} InPostFrom(m: Memory, t: Tables, f: nat, i: nat, x: nat)
    requires Forest(m, t) && f in t && i <= FANOUT
    ensures x in PostFrom(m, t, f, i) <==> exists j: nat :: i <= j < FANOUT && x in Below(m, t, f, j)
    decreases FANOUT - i
  {
    if i < FANOUT {
      InPostFrom(m, t, f, i + 1, x);
      assert x in PostFrom(m, t, f, i) <==> x in Below(m, t, f, i) || x in PostFrom(m, t, f, i + 1);
    }
  }

  lemma IntoPostFrom(m: Memory, t: Tables, f: nat, j: nat, x: nat)
    requires Forest(m, t) && f in t && j < FANOUT && x in Below(m, t, f, j)
    ensures x in PostFrom(m, t, f, 0)
  {
    InPostFrom(m, t, f, 0, x);
    assert 0 <= j < FANOUT && x in Below(m, t, f, j);
  }

  /** Pages below an entry are page-table pages of lower levels. */
  lemma {:induction false} BelowIsLower(m: Memory, t: Tables, f: nat, i: nat, x: nat)
    requires Forest(m, t) && f in t && i < FANOUT && x in Below(m, t, f, i)
    ensures x in t && t[x].level < t[f].level
    ensures t[x].level + 1 == t[f].level ==> x == m[f][i].frame
    decreases t[f].level
  {
    var c := m[f][i].frame;
    if x != c {
      InPostFrom(m, t, c, 0, x);
      var j: nat :| j < FANOUT && x in Below(m, t, c, j);
      BelowIsLower(m, t, c, j, x);
    }
  }

  /** Different entries of one level have no page in common below them. */
  lemma {:induction false} BelowDisjoint(m: Memory, t: Tables, f: nat, i: nat, g: nat, j: nat, x: nat)
    requires Forest(m, t) && f in t && g in t && t[f].level == t[g].level && i < FANOUT && j < FANOUT
    requires x in Below(m, t, f, i) && x in Below(m, t, g, j)
    ensures f == g && i == j
    decreases t[f].level
  {
    BelowIsLower(m, t, f, i, x);
    BelowIsLower(m, t, g, j, x);
    var c, d := m[f][i].frame, m[g][j].frame;
    if x != c && x != d {
      InPostFrom(m, t, c, 0, x);
      InPostFrom(m, t, d, 0, x);
      var k: nat :| k < FANOUT && x in Below(m, t, c, k);
      var l: nat :| l < FANOUT && x in Below(m, t, d, l);
      BelowDisjoint(m, t, c, k, d, l, x);
    }
  }

  lemma {:induction false} PostFromNoDuplicates(m: Memory, t: Tables, f: nat, i: nat)
    requires Forest(m, t) && f in t && i <= FANOUT
    ensures Sequences.NoDuplicates(PostFrom(m, t, f, i))
    decreases t[f].level, FANOUT - i, 1
  {
    if i < FANOUT {
      BelowNoDuplicates(m, t, f, i);
      PostFromNoDuplicates(m, t, f, i + 1);
      forall x | x in Below(m, t, f, i) ensures x !in PostFrom(m, t, f, i + 1) {
        InPostFrom(m, t, f, i + 1, x);
        if x in PostFrom(m, t, f, i + 1) {
          var k: nat :| i + 1 <= k < FANOUT && x in Below(m, t, f, k);
          BelowDisjoint(m, t, f, i, f, k, x);
        }
      }
      Sequences.DisjointConcat(Below(m, t, f, i), PostFrom(m, t, f, i + 1));
    }
  }

  lemma {:induction false} BelowNoDuplicates(m: Memory, t: Tables, f: nat, i: nat)
    requires Forest(m, t) && f in t && i < FANOUT
    ensures Sequences.NoDuplicates(Below(m, t, f, i))
    decreases t[f].level, FANOUT - i, 0
  {
    if t[f].level > 0 && Points(m[f][i]) {
      var c := m[f][i].frame;
      PostFromNoDuplicates(m, t, c, 0);
      forall x | x in PostFrom(m, t, c, 0) ensures x != c {
        InPostFrom(m, t, c, 0, x);
        var k: nat :| k < FANOUT && x in Below(m, t, c, k);
        BelowIsLower(m, t, c, k, x);
      }
      Sequences.DisjointConcat(PostFrom(m, t, c, 0), [c]);
    }
  }

  /** A page comes after every page that its entries point to. */
  ghost predicate ChildrenFirst(m: Memory, t: Tables, s: seq<nat>) {
    forall k, i: nat | 0 <= k < |s| && s[k] in t && s[k] < |m| && t[s[k]].level > 0
                       && i < FANOUT && Points(m[s[k]][i]) ::
      m[s[k]][i].frame in s[..k]
  }

  lemma ChildrenFirstConcat(m: Memory, t: Tables, a: seq<nat>, b: seq<nat>)
    requires ChildrenFirst(m, t, a) && ChildrenFirst(m, t, b)
    ensures ChildrenFirst(m, t, a + b)
  {
    var s: seq<nat> := a + b;
    forall k, i: nat | 0 <= k < |s| && s[k] in t && s[k] < |m| && t[s[k]].level > 0 && i < FANOUT && Points(m[s[k]][i])
      ensures m[s[k]][i].frame in s[..k]
    {
      if k < |a| {
        assert s[..k] == a[..k];
      } else {
        assert s[..k] == a + b[..k - |a|];
        assert b[k - |a|] == s[k];
      }
    }
  }

  lemma {:induction false} PostFromChildrenFirst(m: Memory, t: Tables, f: nat, i: nat)
    requires Forest(m, t) && f in t && i <= FANOUT
    ensures ChildrenFirst(m, t, PostFrom(m, t, f, i))
    decreases t[f].level, FANOUT - i
  {
    if i < FANOUT {
      if t[f].level > 0 && Points(m[f][i]) {
        var c := m[f][i].frame;
        var s := PostFrom(m, t, c, 0);
        PostFromChildrenFirst(m, t, c, 0);
        forall k: nat | t[c].level > 0 && k < FANOUT && Points(m[c][k]) ensures m[c][k].frame in s {
          IntoPostFrom(m, t, c, k, m[c][k].frame);
        }
        assert (s + [c])[..|s|] == s;
        assert forall k | 0 <= k < |s| :: (s + [c])[..k] == s[..k];
      }
      PostFromChildrenFirst(m, t, f, i + 1);
      ChildrenFirstConcat(m, t, Below(m, t, f, i), PostFrom(m, t, f, i + 1));
    }
  }

  /** Page `x` is reached from the root along some route. */
  ghost predicate OnSomePath(m: Memory, t: Tables, root: nat, x: nat)
    requires Forest(m, t) && Root(t, root)
  {
    exists ix: Route, level: nat | level < TOP ::
      PathTo(m, t, root, ix, level).Some? && PathTo(m, t, root, ix, level).value.frame == x
  }

  lemma {:induction false} PathIsBelow(m: Memory, t: Tables, root: nat, ix: Route, level: nat, high: nat)
    requires Forest(m, t) && Root(t, root) && level < high <= TOP
    requires PathTo(m, t, root, ix, level).Some?
    ensures PathTo(m, t, root, ix, high).Some?
    ensures PathTo(m, t, root, ix, level).value.frame in
            PostFrom(m, t, PathTo(m, t, root, ix, high).value.frame, 0)
    decreases high - level
  {
    if level + 1 < high {
      PathIsBelow(m, t, root, ix, level, high - 1);
    }
    PathGoesUp(m, t, root, ix, level, high);
    PathGoesUp(m, t, root, ix, level, high - 1);
    var f := PathTo(m, t, root, ix, high).value.frame;
    var x := PathTo(m, t, root, ix, level).value.frame;
    IntoPostFrom(m, t, f, ix[high], x);
  }

  lemma {:induction false} PathGoesUp(m: Memory, t: Tables, root: nat, ix: Route, level: nat, high: nat)
    requires Forest(m, t) && Root(t, root) && level <= high <= TOP
    requires PathTo(m, t, root, ix, level).Some?
    ensures PathTo(m, t, root, ix, high).Some?
    decreases high - level
  {
    if level < high {
      PathGoesUp(m, t, root, ix, level + 1, high);
    }
  }

  lemma {:induction false} BelowIsOnPath(m: Memory, t: Tables, root: nat, ix: Route, high: nat, i: nat, x: nat)
    requires Forest(m, t) && Root(t, root) && high <= TOP && i < FANOUT
    requires PathTo(m, t, root, ix, high).Some?
    requires x in Below(m, t, PathTo(m, t, root, ix, high).value.frame, i)
    ensures OnSomePath(m, t, root, x)
    decreases high
  {
    var f := PathTo(m, t, root, ix, high).value.frame;
    var jx: Route := ix[high := i];
    SharedPath(m, t, root, ix, jx, high);
    var c := m[f][i].frame;
    assert PathTo(m, t, root, jx, high - 1).value.frame == c;
    if x != c {
      InPostFrom(m, t, c, 0, x);
      var k: nat :| k < FANOUT && x in Below(m, t, c, k);
      BelowIsOnPath(m, t, root, jx, high - 1, k, x);
    }
  }

  /** The order has every page of the tree below its root, each exactly once, children first. */
  lemma PostOrderIsComplete(m: Memory, t: Tables, root: nat)
    requires Forest(m, t) && Root(t, root)
    ensures Sequences.NoDuplicates(PostOrder(m, t, root)) && root !in PostOrder(m, t, root)
    ensures ChildrenFirst(m, t, PostOrder(m, t, root))
    ensures forall x: nat :: x in PostOrder(m, t, root) <==> OnSomePath(m, t, root, x)
  {
    PostFromNoDuplicates(m, t, root, 0);
    PostFromChildrenFirst(m, t, root, 0);
    forall x: nat ensures x in PostOrder(m, t, root) <==> OnSomePath(m, t, root, x)
      ensures x in PostOrder(m, t, root) ==> x != root
    {
      InPostFrom(m, t, root, 0, x);
      if x in PostOrder(m, t, root) {
        var k: nat :| k < FANOUT && x in Below(m, t, root, k);
        BelowIsLower(m, t, root, k, x);
        BelowIsOnPath(m, t, root, [0, 0, 0, 0], TOP, k, x);
      }
      if OnSomePath(m, t, root, x) {
        var ix: Route, level: nat :| level < TOP && PathTo(m, t, root, ix, level).Some?
                                     && PathTo(m, t, root, ix, level).value.frame == x;
        PathIsBelow(m, t, root, ix, level, TOP);
      }
    }
  }

  // ---------------------------------------------------------------------
  // What is still to come for an iterator

  /** The page of the walk along `ix` at `level`. */
  ghost function PageAt(m: Memory, t: Tables, root: nat, ix: Route, level: nat): (f: nat)
    requires Forest(m, t) && Root(t, root) && level <= TOP && PathTo(m, t, root, ix, level).Some?
    ensures f in t && t[f].level == level
  {
    PathTo(m, t, root, ix, level).value.frame
  }

  /** The pages that come after everything below entry `ix[level]` of the walk's page at `level`. */
  ghost function After(m: Memory, t: Tables, root: nat, ix: Route, level: nat): seq<nat>
    requires Forest(m, t) && Root(t, root) && level <= TOP && PathTo(m, t, root, ix, level).Some?
    decreases TOP - level, 1
  {
    PostFrom(m, t, PageAt(m, t, root, ix, level), ix[level] + 1) + Above(m, t, root, ix, level)
  }

  /** The part of these outside the walk's page at `level`: that page itself, and what follows it. */
  ghost function Above(m: Memory, t: Tables, root: nat, ix: Route, level: nat): seq<nat>
    requires Forest(m, t) && Root(t, root) && level <= TOP && PathTo(m, t, root, ix, level).Some?
    decreases TOP - level, 0
  {
    if level == TOP then []
    else [PageAt(m, t, root, ix, level)] + After(m, t, root, ix, level + 1)
  }

  /** The pages below entry `ix[level]` of page `f` that do not lie wholly before route `ix`. */
  ghost function BelowFrom(m: Memory, t: Tables, f: nat, ix: Route): seq<nat>
    requires Forest(m, t) && f in t
    decreases t[f].level
  {
    var level := t[f].level;
    var e := m[f][ix[level]];
    if level > 0 && Points(e)
    then BelowFrom(m, t, e.frame, ix)
         + (if level > 1 then PostFrom(m, t, e.frame, ix[level - 1] + 1) else [])
         + [e.frame]
    else []
  }

  /** What an iterator started at `va` should visit. */
  ghost function From(m: Memory, t: Tables, root: nat, va: nat): seq<nat>
    requires Forest(m, t) && Root(t, root)
  {
    BelowFrom(m, t, root, RouteOf(va)) + After(m, t, root, RouteOf(va), TOP)
  }

  lemma PostFromSplits(m: Memory, t: Tables, f: nat, i: nat)
    requires Forest(m, t) && f in t && i < FANOUT
    ensures PostFrom(m, t, f, i) == Below(m, t, f, i) + PostFrom(m, t, f, i + 1)
  {
  }

  /** One level of `Below` and of `BelowFrom`, at a pointer. */
  lemma BelowFromPointer(m: Memory, t: Tables, f: nat, ix: Route)
    requires Forest(m, t) && f in t && t[f].level > 0 && Points(m[f][ix[t[f].level]])
    ensures var level, c := t[f].level, m[f][ix[t[f].level]].frame;
            && c in t && t[c].level == level - 1 && Below(m, t, f, ix[level]) == PostFrom(m, t, c, 0) + [c]
            && BelowFrom(m, t, f, ix) ==
               if level == 1 then [c] else BelowFrom(m, t, c, ix) + PostFrom(m, t, c, ix[level - 1] + 1) + [c]
  {
    hide PostFrom;
  }

  lemma BelowFromNone(m: Memory, t: Tables, f: nat, ix: Route)
    requires Forest(m, t) && f in t
    ensures f < |m|
    ensures t[f].level == 0 || !Points(m[f][ix[t[f].level]]) ==>
              BelowFrom(m, t, f, ix) == [] && Below(m, t, f, ix[t[f].level]) == []
  {
    hide PostFrom;
  }

  /** With nothing but zeros below its level, a route starts at the beginning of its entry. */
  lemma {:induction false} BelowFromStart(m: Memory, t: Tables, f: nat, ix: Route)
    requires Forest(m, t) && f in t && forall j: nat | j < t[f].level :: ix[j] == 0
    ensures BelowFrom(m, t, f, ix) == Below(m, t, f, ix[t[f].level])
    decreases t[f].level
  {
    var level := t[f].level;
    BelowFromNone(m, t, f, ix);
    hide Forest, Below, BelowFrom, PostFrom;
    if level > 0 && Points(m[f][ix[level]]) {
      hide Points;
      var c := m[f][ix[level]].frame;
      BelowFromPointer(m, t, f, ix);
      if level == 1 {
        LeafHasNoneBelow(m, t, c, 0);
      } else {
        BelowFromStart(m, t, c, ix);
        PostFromSplits(m, t, c, 0);
      }
    }
  }

  lemma FromZeroIsPostOrder(m: Memory, t: Tables, root: nat)
    requires Forest(m, t) && Root(t, root)
    ensures From(m, t, root, 0) == PostOrder(m, t, root)
  {
    BelowFromStart(m, t, root, RouteOf(0));
  }

  lemma {:induction false} PostFromTail(m: Memory, t: Tables, f: nat, i: nat, k: nat) returns (before: seq<nat>)
    requires Forest(m, t) && f in t && i <= k <= FANOUT
    ensures PostFrom(m, t, f, i) == before + PostFrom(m, t, f, k)
    decreases k - i
  {
    if i == k {
      before := [];
    } else {
      var rest := PostFromTail(m, t, f, i + 1, k);
      PostFromSplits(m, t, f, i);
      before := Below(m, t, f, i) + rest;
    }
  }

  lemma Join(before: seq<nat>, b: seq<nat>, from: seq<nat>, rest: seq<nat>, last: seq<nat>)
    ensures (before + ((b + from) + rest)) + last == (before + b) + (from + rest + last)
  {
  }

  lemma {:induction false} BelowFromIsTail(m: Memory, t: Tables, f: nat, ix: Route) returns (before: seq<nat>)
    requires Forest(m, t) && f in t
    ensures Below(m, t, f, ix[t[f].level]) == before + BelowFrom(m, t, f, ix)
    decreases t[f].level
  {
    var level := t[f].level;
    before := [];
    if level > 0 && Points(m[f][ix[level]]) {
      var c := m[f][ix[level]].frame;
      if level == 1 {
        LeafHasNoneBelow(m, t, c, 0);
        assert BelowFrom(m, t, c, ix) == [];
      } else {
        var a := PostFromTail(m, t, c, 0, ix[level - 1]);
        var b := BelowFromIsTail(m, t, c, ix);
        PostFromSplits(m, t, c, ix[level - 1]);
        Join(a, b, BelowFrom(m, t, c, ix), PostFrom(m, t, c, ix[level - 1] + 1), [c]);
        before := a + b;
      }
    }
  }

  /** An iterator started at any address visits the last part of the same order. */
  lemma FromIsTail(m: Memory, t: Tables, root: nat, va: nat) returns (before: seq<nat>)
    requires Forest(m, t) && Root(t, root)
    ensures PostOrder(m, t, root) == before + From(m, t, root, va)
  {
    hide Below, BelowFrom, PostFrom;
    var ix := RouteOf(va);
    var a := PostFromTail(m, t, root, 0, ix[TOP]);
    var b := BelowFromIsTail(m, t, root, ix);
    PostFromSplits(m, t, root, ix[TOP]);
    Join(a, b, BelowFrom(m, t, root, ix), PostFrom(m, t, root, ix[TOP] + 1), []);
    before := a + b;
  }

  // ---------------------------------------------------------------------
  // Which pages those are

  /** On the way to the page of route `jx` at `level`, from index `high` down, `jx` is not before `ix`. */
  predicate NotBefore(jx: Route, ix: Route, high: nat, level: nat)
    requires level <= high <= TOP
    decreases high
  {
    high == level || jx[high] > ix[high] || (jx[high] == ix[high] && NotBefore(jx, ix, high - 1, level))
  }

  /** The page of route `jx` at `level` is below the entry that the route goes through, and no other. */
  lemma InBelowIff(m: Memory, t: Tables, root: nat, jx: Route, level: nat, high: nat, i: nat)
    requires Forest(m, t) && Root(t, root) && level < high <= TOP && i < FANOUT
    requires PathTo(m, t, root, jx, level).Some?
    ensures PathTo(m, t, root, jx, high).Some?
    ensures PageAt(m, t, root, jx, level) in Below(m, t, PageAt(m, t, root, jx, high), i) <==> i == jx[high]
  {
    PathGoesUp(m, t, root, jx, level, high);
    PathGoesUp(m, t, root, jx, level, high - 1);
    var f, x := PageAt(m, t, root, jx, high), PageAt(m, t, root, jx, level);
    if level < high - 1 {
      PathIsBelow(m, t, root, jx, level, high - 1);
    }
    assert x in Below(m, t, f, jx[high]);
    if x in Below(m, t, f, i) {
      BelowDisjoint(m, t, f, i, f, jx[high], x);
    }
  }

  lemma InPostFromIff(m: Memory, t: Tables, root: nat, jx: Route, level: nat, high: nat, i: nat)
    requires Forest(m, t) && Root(t, root) && level < high <= TOP && i <= FANOUT
    requires PathTo(m, t, root, jx, level).Some?
    ensures PathTo(m, t, root, jx, high).Some?
    ensures PageAt(m, t, root, jx, level) in PostFrom(m, t, PageAt(m, t, root, jx, high), i) <==> i <= jx[high]
  {
    hide Below, PostFrom;
    PathGoesUp(m, t, root, jx, level, high);
    var f, x := PageAt(m, t, root, jx, high), PageAt(m, t, root, jx, level);
    InPostFrom(m, t, f, i, x);
    forall j: nat | j < FANOUT ensures x in Below(m, t, f, j) <==> j == jx[high] {
      InBelowIff(m, t, root, jx, level, high, j);
    }
    assert x in Below(m, t, f, jx[high]);
  }

  lemma {:induction false} InBelowFromIff(m: Memory, t: Tables, root: nat, ix: Route, jx: Route, level: nat, high: nat)
    requires Forest(m, t) && Root(t, root) && level < high <= TOP && PathTo(m, t, root, jx, level).Some?
    ensures PathTo(m, t, root, jx, high).Some?
    ensures PageAt(m, t, root, jx, level) in BelowFrom(m, t, PageAt(m, t, root, jx, high), ix)
            <==> jx[high] == ix[high] && NotBefore(jx, ix, high - 1, level)
    decreases high
  {
    PathGoesUp(m, t, root, jx, level, high);
    var f, x := PageAt(m, t, root, jx, high), PageAt(m, t, root, jx, level);
    InBelowIff(m, t, root, jx, level, high, ix[high]);
    if jx[high] != ix[high] {
      hide PathTo, Points, Below, BelowFrom;
      var _ := BelowFromIsTail(m, t, f, ix);
    } else {
      PathGoesUp(m, t, root, jx, level, high - 1);
      var c := PageAt(m, t, root, jx, high - 1);
      BelowFromPointer(m, t, f, ix);
      assert m[f][ix[high]].frame == c;
      hide Forest, PathTo, Points, Below, BelowFrom, PostFrom;
      if level < high - 1 {
        InBelowFromIff(m, t, root, ix, jx, level, high - 1);
        InPostFromIff(m, t, root, jx, level, high - 1, ix[high - 1] + 1);
      }
    }
  }

  /** The digits of two addresses compare like their prefixes. */
  lemma {:induction false} DigitsCompare(a: nat, va: nat, high: nat, level: nat)
    requires level <= high <= TOP && Prefix(a, high + 1) == Prefix(va, high + 1)
    ensures NotBefore(RouteOf(a), RouteOf(va), high, level) <==> Prefix(va, level + 1) <= Prefix(a, level + 1)
    decreases high
  {
    hide Index;
    if level < high {
      PrefixStep(a, high);
      PrefixStep(va, high);
      if Prefix(a, level + 1) < Prefix(va, level + 1) {
        PrefixMonotone(a, va, level + 1, high);
      } else {
        PrefixMonotone(va, a, level + 1, high);
      }
      if Prefix(a, high) == Prefix(va, high) {
        DigitsCompare(a, va, high - 1, level);
      }
    }
  }

  lemma {:induction false} PrefixMonotone(a: nat, b: nat, low: nat, high: nat)
    requires low <= high <= TOP + 1 && Prefix(a, low) <= Prefix(b, low)
    ensures Prefix(a, high) <= Prefix(b, high)
    decreases high
  {
    if low < high {
      PrefixMonotone(a, b, low, high - 1);
    }
  }

  /** `va` lies before the end of the span of `a` exactly if no later span holds it. */
  lemma BeforeSpanEnd(a: nat, va: nat, level: nat)
    requires level <= TOP
    ensures va < NextSpan(a, level) <==> Prefix(va, level) <= Prefix(a, level)
  {
    PrefixIs(a);
    PrefixIs(va);
    match level
    case 0 =>
    case 1 =>
    case 2 =>
    case 3 =>
  }

  lemma FromAtRoot(m: Memory, t: Tables, root: nat, va: nat, jx: Route)
    requires Forest(m, t) && Root(t, root)
    ensures PathTo(m, t, root, jx, TOP).Some? && PageAt(m, t, root, jx, TOP) == root
    ensures From(m, t, root, va) == BelowFrom(m, t, root, RouteOf(va)) + PostFrom(m, t, root, RouteOf(va)[TOP] + 1)
  {
    hide BelowFrom, PostFrom;
  }

  /** The page that the walk to `a` passes at `level` covers the span of addresses around `a` that
      share the entry above it. It is to be visited exactly if that span does not end before `va`. */
  lemma FromBySpan(m: Memory, t: Tables, root: nat, va: nat, a: nat, level: nat)
    requires Forest(m, t) && Root(t, root) && level < TOP && va <= VA_NONCANONMAX && a <= VA_NONCANONMAX
    requires PathTo(m, t, root, RouteOf(a), level).Some?
    ensures PageAt(m, t, root, RouteOf(a), level) in From(m, t, root, va) <==> va < NextSpan(a, level + 1)
  {
    hide From, BelowFrom, PostFrom, Below, NextSpan, Forest, PathTo, Index;
    var ix, jx, x := RouteOf(va), RouteOf(a), PageAt(m, t, root, RouteOf(a), level);
    InBelowFromIff(m, t, root, ix, jx, level, TOP);
    InPostFromIff(m, t, root, jx, level, TOP, ix[TOP] + 1);
    FromAtRoot(m, t, root, va, jx);
    PrefixIs(a);
    PrefixIs(va);
    DigitsCompare(a, va, TOP, level);
    BeforeSpanEnd(a, va, level + 1);
  }

  /** An address with given indexes. */
  function AddressOf(ix: Route): nat {
    (((ix[3] * 512 + ix[2]) * 512 + ix[1]) * 512 + ix[0]) * PAGESIZE
  }

  lemma AddressRoute(ix: Route)
    ensures AddressOf(ix) <= VA_NONCANONMAX && RouteOf(AddressOf(ix)) == ix
  {
    var a := AddressOf(ix);
    var p := ((ix[3] * 512 + ix[2]) * 512 + ix[1]) * 512 + ix[0];
    DivUnique(p, 0, PAGESIZE);
    DivUnique((ix[3] * 512 + ix[2]) * 512 + ix[1], ix[0], 512);
    DivUnique(ix[3] * 512 + ix[2], ix[1], 512);
    DivUnique(ix[3], ix[2], 512);
    DivUnique(0, ix[3], 512);
  }

  /** An iterator started at `va` is to visit exactly the pages that do not lie wholly before `va`. */
  lemma FromIsSpans(m: Memory, t: Tables, root: nat, va: nat, x: nat)
    requires Forest(m, t) && Root(t, root) && va <= VA_NONCANONMAX
    ensures x in From(m, t, root, va) <==>
            exists a: nat, level: nat | a <= VA_NONCANONMAX && level < TOP ::
              && PathTo(m, t, root, RouteOf(a), level).Some? && PageAt(m, t, root, RouteOf(a), level) == x
              && va < NextSpan(a, level + 1)
  {
    hide NextSpan, From, PostOrder, ChildrenFirst, AddressOf;
    PostOrderIsComplete(m, t, root);
    var _ := FromIsTail(m, t, root, va);
    if x in From(m, t, root, va) {
      assert x in PostOrder(m, t, root) && OnSomePath(m, t, root, x);
      var ix: Route, level: nat :| level < TOP && PathTo(m, t, root, ix, level).Some?
                                   && PathTo(m, t, root, ix, level).value.frame == x;
      AddressRoute(ix);
      FromBySpan(m, t, root, va, AddressOf(ix), level);
    }
    forall a: nat, level: nat | a <= VA_NONCANONMAX && level < TOP && PathTo(m, t, root, RouteOf(a), level).Some?
      ensures PageAt(m, t, root, RouteOf(a), level) in From(m, t, root, va) <==> va < NextSpan(a, level + 1)
    {
      FromBySpan(m, t, root, va, a, level);
    }
  }

  // ---------------------------------------------------------------------
  // How the rest changes as the iterator moves

  lemma Regroup(a: seq<nat>, b: seq<nat>, c: seq<nat>, d: seq<nat>)
    ensures a + b + c + d == a + (b + (c + d))
  {
  }

  /** After descending, the rest is the same. */
  lemma DescendKeepsRest(m: Memory, t: Tables, root: nat, ix: Route, level: nat)
    requires Forest(m, t) && Root(t, root) && 1 < level <= TOP && PathTo(m, t, root, ix, level).Some?
    requires Points(m[PageAt(m, t, root, ix, level)][ix[level]])
    ensures PathTo(m, t, root, ix, level - 1).Some?
    ensures BelowFrom(m, t, PageAt(m, t, root, ix, level), ix) + After(m, t, root, ix, level) ==
            BelowFrom(m, t, PageAt(m, t, root, ix, level - 1), ix) + After(m, t, root, ix, level - 1)
  {
    var f, c := PageAt(m, t, root, ix, level), PageAt(m, t, root, ix, level - 1);
    assert c == m[f][ix[level]].frame;
    Regroup(BelowFrom(m, t, c, ix), PostFrom(m, t, c, ix[level - 1] + 1), [c], After(m, t, root, ix, level));
    assert Above(m, t, root, ix, level - 1) == [c] + After(m, t, root, ix, level);
  }

  /** `Above` depends only on the route above its level. */
  lemma {:induction false} AboveShared(m: Memory, t: Tables, root: nat, ix: Route, jx: Route, level: nat)
    requires Forest(m, t) && Root(t, root) && level <= TOP && PathTo(m, t, root, ix, level).Some?
    requires forall j: nat | level < j <= TOP :: ix[j] == jx[j]
    ensures PathTo(m, t, root, jx, level) == PathTo(m, t, root, ix, level)
    ensures Above(m, t, root, jx, level) == Above(m, t, root, ix, level)
    decreases TOP - level
  {
    hide PostFrom, Below, Points, Forest, PathTo;
    SharedPath(m, t, root, ix, jx, level);
    if level < TOP {
      PathGoesUp(m, t, root, ix, level, level + 1);
      AboveShared(m, t, root, ix, jx, level + 1);
    }
  }

  /** Moving to the next entry of the same page. */
  lemma AdvanceKeepsRest(m: Memory, t: Tables, root: nat, ix: Route, jx: Route, level: nat)
    requires Forest(m, t) && Root(t, root) && level <= TOP && PathTo(m, t, root, ix, level).Some?
    requires ix[level] + 1 == jx[level] && forall j: nat | level < j <= TOP :: ix[j] == jx[j]
    requires forall j: nat | j < level :: jx[j] == 0
    ensures PathTo(m, t, root, jx, level) == PathTo(m, t, root, ix, level)
    ensures After(m, t, root, ix, level) ==
            BelowFrom(m, t, PageAt(m, t, root, jx, level), jx) + After(m, t, root, jx, level)
  {
    hide PostFrom, Below, BelowFrom, Above;
    AboveShared(m, t, root, ix, jx, level);
    var f := PageAt(m, t, root, jx, level);
    var above := Above(m, t, root, jx, level);
    assert After(m, t, root, ix, level) == PostFrom(m, t, f, jx[level]) + above;
    assert After(m, t, root, jx, level) == PostFrom(m, t, f, jx[level] + 1) + above;
    PostFromSplits(m, t, f, jx[level]);
    BelowFromStart(m, t, f, jx);
    var below, rest := Below(m, t, f, jx[level]), PostFrom(m, t, f, jx[level] + 1);
    assert (below + rest) + above == below + (rest + above);
  }

  /** The pages that the iterator's way up passes through are still to come. */
  lemma {:induction false} AncestorsToCome(m: Memory, t: Tables, root: nat, ix: Route, level: nat, high: nat)
    requires Forest(m, t) && Root(t, root) && level <= high < TOP && PathTo(m, t, root, ix, level).Some?
    ensures PathTo(m, t, root, ix, high).Some?
    ensures PageAt(m, t, root, ix, high) in After(m, t, root, ix, level)
    decreases high - level
  {
    PathGoesUp(m, t, root, ix, level, high);
    if level < high {
      AncestorsToCome(m, t, root, ix, level + 1, high);
    }
  }

  lemma NextPrefix(va: nat, level: nat)
    requires level <= TOP
    ensures Prefix(NextSpan(va, level), level) == Prefix(va, level) + 1
  {
    PrefixIs(NextSpan(va, level));
    match level
    case 0 => AddMultiple(Prefix(va, 0) + 1, 0x1000, 0);
    case 1 => AddMultiple(Prefix(va, 1) + 1, 0x20_0000, 0);
    case 2 => AddMultiple(Prefix(va, 2) + 1, 0x4000_0000, 0);
    case 3 => AddMultiple(Prefix(va, 3) + 1, 0x80_0000_0000, 0);
  }

  lemma ZeroDigit(x: nat, q: nat, s: nat)
    requires s > 0 && x == q * 512 * s
    ensures x / s % 512 == 0
  {
    AddMultiple(q * 512, s, 0);
    AddMultiple(q, 512, 0);
  }

  lemma LowDigitsZero(va: nat, level: nat)
    requires level <= TOP
    ensures forall j: nat | j < level :: Index(NextSpan(va, level), j) == 0
  {
    var next, p := NextSpan(va, level), Prefix(va, level) + 1;
    PrefixIs(next);
    match level
    case 0 =>
    case 1 =>
      ZeroDigit(next, p, 0x1000);
    case 2 =>
      ZeroDigit(next, p * 0x200, 0x1000);
      ZeroDigit(next, p, 0x20_0000);
    case 3 =>
      ZeroDigit(next, p * 0x4_0000, 0x1000);
      ZeroDigit(next, p * 0x200, 0x20_0000);
      ZeroDigit(next, p, 0x4000_0000);
  }

  /** `(va | pageoffmask(level)) + 1` in 64 bits. */
  function NextAddress(va: nat, level: nat): nat
    requires level <= TOP
  {
    NextSpan(va, level) % ADDRESS_END
  }

  /** Digits of that address. */
  lemma NextRoute(va: nat, level: nat)
    requires level <= TOP && va < ADDRESS_END
    ensures var next := NextAddress(va, level);
            && (Prefix(next, level + 1) != Prefix(va, level + 1) <==> Index(va, level) == FANOUT - 1)
            && (Index(va, level) < FANOUT - 1 ==>
                  && va < next < ADDRESS_END && (next <= VA_NONCANONMAX <==> va <= VA_NONCANONMAX)
                  && Index(next, level) == Index(va, level) + 1
                  && (forall j: nat | level < j <= TOP :: Index(next, j) == Index(va, j))
                  && (forall j: nat | j < level :: Index(next, j) == 0))
  {
    hide Index;
    var next := NextSpan(va, level);
    SpanBounds(va, level);
    NextPrefix(va, level);
    PrefixStep(va, level);
    PrefixStep(next, level);
    LowDigitsZero(va, level);
    if next == ADDRESS_END {
      LastSpan(va, level);
    } else {
      SmallModulus(next, ADDRESS_END);
      if Index(va, level) < FANOUT - 1 {
        PrefixIndexes(next, va, level + 1);
        SamePrefixAbove(next, va, level + 1);
        PrefixIs(next);
        PrefixIs(va);
      }
    }
  }

  lemma {:induction false} SamePrefixAbove(a: nat, b: nat, level: nat)
    requires level <= TOP + 1 && Prefix(a, level) == Prefix(b, level)
    ensures Prefix(a, TOP + 1) == Prefix(b, TOP + 1)
    decreases TOP + 1 - level
  {
    if level <= TOP {
      SamePrefixAbove(a, b, level + 1);
    }
  }

  /** Only the last entry of its page borders on the end of the address space. */
  lemma LastSpan(va: nat, level: nat)
    requires level <= TOP && va < ADDRESS_END && NextSpan(va, level) == ADDRESS_END
    ensures Index(va, level) == FANOUT - 1
    ensures NextAddress(va, level) == 0 && Prefix(0, level + 1) == 0 < Prefix(va, level + 1)
  {
    PrefixIs(va);
    PrefixIs(0);
    match level
    case 0 =>
    case 1 =>
    case 2 =>
    case 3 =>
  }

  // ---------------------------------------------------------------------
  // The two ways of moving: scanning forward, and climbing by descending from the root

  /** What is still to come when `down` is at entry `ix[level]` of page `frame`, if it can be there
      at all. With `stop` 1 it scans: it is about to look at that entry (or, with `skip`, past it).
      Otherwise it climbs: it descends again from the root to visit the page of its walk at level
      `stop - 1`. */
  ghost function Pending(m: Memory, t: Tables, root: nat, va: nat, level: nat, frame: nat,
                         stop: nat, skip: bool): (todo: Option<seq<nat>>)
    requires Forest(m, t) && Root(t, root)
    ensures todo.Some? ==> va < ADDRESS_END && 1 <= stop <= level <= TOP && frame < |m|
  {
    var ix := RouteOf(va);
    if !(va < ADDRESS_END && 1 <= stop <= level <= TOP && OnRoute(m, t, root, ix, level, frame)) then None
    else if stop == 1 then
      var after := After(m, t, root, ix, level);
      Some(if skip then after else BelowFrom(m, t, frame, ix) + after)
    else if skip || PathTo(m, t, root, ix, stop - 1) == None then None
    else
      PathGoesUp(m, t, root, ix, stop - 1, stop);
      Some([PageAt(m, t, root, ix, stop - 1)] + After(m, t, root, ix, stop))
  }

  /** What is still to come, the current page first, when the iterator rests at a pointer. */
  ghost function Resting(m: Memory, t: Tables, root: nat, va: nat, level: nat, frame: nat): (todo: Option<seq<nat>>)
    requires Forest(m, t) && Root(t, root)
    ensures todo.Some? ==> va < ADDRESS_END && 1 <= level <= TOP && frame < |m| && todo.value != []
  {
    var ix := RouteOf(va);
    if va < ADDRESS_END && 1 <= level <= TOP && OnRoute(m, t, root, ix, level, frame) && Points(m[frame][ix[level]])
    then Some([m[frame][ix[level]].frame] + After(m, t, root, ix, level))
    else None
  }

  ghost predicate OnRoute(m: Memory, t: Tables, root: nat, ix: Route, level: nat, frame: nat)
    requires Forest(m, t) && Root(t, root) && level <= TOP
  {
    PathTo(m, t, root, ix, level).Some? && frame == PageAt(m, t, root, ix, level)
  }

  /** The page that a moving iterator reads is the root or still to come. */
  lemma ReadsUnvisited(m: Memory, t: Tables, root: nat, va: nat, level: nat, frame: nat,
                       stop: nat, skip: bool, todo: seq<nat>)
    requires Forest(m, t) && Root(t, root) && Pending(m, t, root, va, level, frame, stop, skip) == Some(todo)
    ensures frame == root || frame in todo
  {
    if level < TOP {
      AncestorsToCome(m, t, root, RouteOf(va), if stop == 1 then level else stop, level);
    }
  }

  lemma ScanDescends(m: Memory, t: Tables, root: nat, va: nat, level: nat, frame: nat, todo: seq<nat>)
    requires Forest(m, t) && Root(t, root) && Pending(m, t, root, va, level, frame, 1, false) == Some(todo)
    requires Points(m[frame][RouteOf(va)[level]])
    ensures if level == 1 then Resting(m, t, root, va, level, frame) == Some(todo)
            else Pending(m, t, root, va, level - 1, m[frame][RouteOf(va)[level]].frame, 1, false) == Some(todo)
  {
    var ix := RouteOf(va);
    if level == 1 {
      assert BelowFrom(m, t, frame, ix) == [m[frame][ix[1]].frame];
    } else {
      DescendKeepsRest(m, t, root, ix, level);
    }
  }

  lemma ScanAdvances(m: Memory, t: Tables, root: nat, va: nat, level: nat, frame: nat, skip: bool, todo: seq<nat>)
    requires Forest(m, t) && Root(t, root) && Pending(m, t, root, va, level, frame, 1, skip) == Some(todo)
    requires skip || !Points(m[frame][RouteOf(va)[level]])
    ensures if Index(va, level) < FANOUT - 1
            then Pending(m, t, root, NextAddress(va, level), level, frame, 1, false) == Some(todo)
            else if level == TOP then todo == []
            else Pending(m, t, root, va, TOP, root, level + 1, false) == Some(todo)
  {
    var ix := RouteOf(va);
    assert todo == After(m, t, root, ix, level);
    if ix[level] < FANOUT - 1 {
      NextRoute(va, level);
      AdvanceKeepsRest(m, t, root, ix, RouteOf(NextAddress(va, level)), level);
    } else {
      assert todo == Above(m, t, root, ix, level);
    }
  }

  lemma ClimbDescends(m: Memory, t: Tables, root: nat, va: nat, level: nat, frame: nat, stop: nat, todo: seq<nat>)
    requires Forest(m, t) && Root(t, root) && stop > 1
    requires Pending(m, t, root, va, level, frame, stop, false) == Some(todo)
    ensures Points(m[frame][RouteOf(va)[level]])
    ensures if level == stop then Resting(m, t, root, va, level, frame) == Some(todo)
            else Pending(m, t, root, va, level - 1, m[frame][RouteOf(va)[level]].frame, stop, false) == Some(todo)
  {
    PathGoesUp(m, t, root, RouteOf(va), stop - 1, level - 1);
  }

  /** One turn of the loop in `down`, at a pointer that is not skipped. */
  lemma DescendTurn(m: Memory, t: Tables, root: nat, va: nat, level: nat, frame: nat, stop: nat, todo: seq<nat>)
    requires Forest(m, t) && Root(t, root) && Pending(m, t, root, va, level, frame, stop, false) == Some(todo)
    requires Points(m[frame][RouteOf(va)[level]])
    ensures if level == stop then Resting(m, t, root, va, level, frame) == Some(todo)
            else Pending(m, t, root, va, level - 1, m[frame][RouteOf(va)[level]].frame, stop, false) == Some(todo)
  {
    if stop > 1 {
      ClimbDescends(m, t, root, va, level, frame, stop, todo);
    } else {
      ScanDescends(m, t, root, va, level, frame, todo);
    }
  }

  /** One turn of the loop in `down`, at a skipped entry or at one that is no pointer. */
  lemma ForwardTurn(m: Memory, t: Tables, root: nat, va: nat, level: nat, frame: nat,
                    stop: nat, skip: bool, todo: seq<nat>)
    requires Forest(m, t) && Root(t, root) && Pending(m, t, root, va, level, frame, stop, skip) == Some(todo)
    requires skip || !Points(m[frame][RouteOf(va)[level]])
    ensures var next := NextAddress(va, level);
            && stop == 1
            && if Prefix(next, level + 1) != Prefix(va, level + 1) then
                 if level == TOP then todo == []
                 else Pending(m, t, root, va, TOP, root, level + 1, false) == Some(todo)
               else RouteOf(next)[level] == RouteOf(va)[level] + 1 && va < next
                    && (next <= VA_NONCANONMAX <==> va <= VA_NONCANONMAX)
                    && Pending(m, t, root, next, level, frame, 1, false) == Some(todo)
  {
    if stop > 1 {
      ClimbDescends(m, t, root, va, level, frame, stop, todo);
    }
    NextRoute(va, level);
    ScanAdvances(m, t, root, va, level, frame, skip, todo);
  }

  // ---------------------------------------------------------------------
  // The iterator

  /** The pages of `m` that a walk may still read are as they were. */
  ghost predicate Intact(m: Memory, n: Memory, root: nat, todo: seq<nat>) {
    |n| == |m| && forall f: nat | f < |m| && (f == root || f in todo) :: n[f] == m[f]
  }

  class PtIter {
    const mem: Kalloc.PhysicalMemory
    const root: nat                // pt_
    var frame: nat                 // pep_ points to entry `index` of page `frame`
    var index: nat
    var level: nat
    var va: nat

    predicate Active()
      reads this
    {
      va <= VA_NONCANONMAX
    }

    /** In the tables as they were in `m`, the pages `todo` are what is left to visit. */
    ghost predicate Left(m: Memory, t: Tables, todo: seq<nat>)
      reads this
      requires Forest(m, t) && Root(t, root)
    {
      if todo == [] then !Active()
      else Active() && Resting(m, t, root, va, level, frame) == Some(todo) && index == RouteOf(va)[level]
    }

    /** Starts at the first page that does not lie wholly before `va`; beyond VA_NONCANONMAX there is
        none. */
    constructor (mem: Kalloc.PhysicalMemory, root: nat, va: nat, ghost t: Tables)
      requires Forest(mem.pages, t) && Root(t, root) && va < ADDRESS_END
      ensures this.mem == mem && this.root == root
      ensures Left(mem.pages, t, if va <= VA_NONCANONMAX then From(mem.pages, t, root, va) else [])
    {
      this.mem := mem;
      this.root := root;
      level := TOP;
      frame, index := root, Index(va, TOP);
      this.va := va;
      new;
      ghost var todo := From(mem.pages, t, root, va);
      Down(false, mem.pages, t, todo);
    }

    /** The else branch of `down`: past the current entry, to the next one of its page or, at the
        end of the page, to the root for a climb to level `stopLevel`, or off the end. */
    method Forward(stopLevel0: nat, ghost skip: bool, ghost m: Memory, ghost t: Tables, ghost todo: seq<nat>)
      returns (stopLevel: nat, done: bool)
      requires Forest(m, t) && Root(t, root)
      requires Pending(m, t, root, va, level, frame, stopLevel0, skip) == Some(todo) && index == RouteOf(va)[level]
      requires skip || !Points(m[frame][index])
      modifies this`frame, this`index, this`level, this`va
      ensures if done then va == VA_NONCANONMAX + 1 && todo == []
              else Pending(m, t, root, va, level, frame, stopLevel, false) == Some(todo) && index == RouteOf(va)[level]
                   && (Active() <==> old(Active()))
      ensures !done ==> stopLevel0 == 1 && (old(va) < va || (old(va) == va && stopLevel > 1))
    {
      hide Pending, Resting, Forest, Points;
      ForwardTurn(m, t, root, va, level, frame, stopLevel0, skip, todo);
      stopLevel, done := stopLevel0, false;
      var next := NextAddress(va, level);
      if Prefix(next, level + 1) != Prefix(va, level + 1) {
        if level == TOP {
          va, done := VA_NONCANONMAX + 1, true;
          return;
        }
        stopLevel := level + 1;
        level := TOP;
        frame, index := root, Index(va, level);
      } else {
        index := index + 1;
        va := next;
      }
    }

    /** `down(skip)`: moves to the first page of `todo`, reading only the root and pages that are
        still to come. */
    method Down(skip0: bool, ghost m: Memory, ghost t: Tables, ghost todo: seq<nat>)
      requires Forest(m, t) && Root(t, root) && Intact(m, mem.pages, root, todo)
      requires Pending(m, t, root, va, level, frame, 1, skip0) == Some(todo) && index == RouteOf(va)[level]
      modifies this`frame, this`index, this`level, this`va
      ensures Left(m, t, if old(Active()) then todo else [])
    {
      hide Pending, Resting;
      var skip := skip0;
      var stopLevel: nat := 1;
      while true
        invariant Pending(m, t, root, va, level, frame, stopLevel, skip) == Some(todo)
        invariant index == RouteOf(va)[level] && (Active() <==> old(Active()))
        decreases ADDRESS_END - va, if stopLevel == 1 then 1 else 0, level
      {
        ReadsUnvisited(m, t, root, va, level, frame, stopLevel, skip, todo);
        var e := mem.pages[frame][index];
        if Points(e) && !skip {
          DescendTurn(m, t, root, va, level, frame, stopLevel, todo);
          if level == stopLevel {
            break;
          }
          level := level - 1;
          frame, index := e.frame, Index(va, level);
        } else {
          var done;
          stopLevel, done := Forward(stopLevel, skip, m, t, todo);
          if done {
            return;
          }
          skip := false;
        }
      }
    }

    method Next(ghost m: Memory, ghost t: Tables, ghost todo: seq<nat>)
      requires Forest(m, t) && Root(t, root) && Active() && todo != [] && Left(m, t, todo)
      requires Intact(m, mem.pages, root, todo[1..])
      modifies this`frame, this`index, this`level, this`va
      ensures Left(m, t, todo[1..])
    {
      assert todo[1..] == After(m, t, root, RouteOf(va), level);
      Down(true, m, t, todo[1..]);
    }

    /** `ptp_pa()`, as a frame number. */
    method Ptp(ghost m: Memory, ghost t: Tables, ghost todo: seq<nat>) returns (f: nat)
      requires Forest(m, t) && Root(t, root) && Active() && todo != [] && Left(m, t, todo)
      requires Intact(m, mem.pages, root, todo)
      ensures f == todo[0]
    {
      StandsInUnvisited(m, t, root, va, level, frame, todo);
      f := mem.pages[frame][index].frame;
    }
  }

  lemma StandsInUnvisited(m: Memory, t: Tables, root: nat, va: nat, level: nat, frame: nat, todo: seq<nat>)
    requires Forest(m, t) && Root(t, root) && Resting(m, t, root, va, level, frame) == Some(todo)
    ensures frame < |m| && (frame == root || frame in todo[1..])
  {
    if level < TOP {
      AncestorsToCome(m, t, root, RouteOf(va), level, level);
    }
  }

  /** The loop that the iterator is made for: it frees each page that it comes to, and then the root;
      freeing a page overwrites it with anything at all. Every page of the tree is freed exactly
      once, in the order that the tree had at the start, and no other page is touched. */
  method FreeTables(mem: Kalloc.PhysicalMemory, root: nat, ghost t: Tables) returns (freed: seq<nat>)
    requires Forest(mem.pages, t) && Root(t, root)
    modifies mem`pages
    ensures freed == PostOrder(old(mem.pages), t, root) + [root]
    ensures |mem.pages| == |old(mem.pages)|
    ensures forall f: nat | f < |mem.pages| && f !in freed :: mem.pages[f] == old(mem.pages)[f]
  {
    hide PostOrder, From, ChildrenFirst, OnSomePath, Resting;
    ghost var m := mem.pages;
    ghost var todo := PostOrder(m, t, root);
    PostOrderIsComplete(m, t, root);
    FromZeroIsPostOrder(m, t, root);
    var it := new PtIter(mem, root, 0, t);
    freed := [];
    while it.Active()
      invariant fresh(it) && it.mem == mem && it.root == root && it.Left(m, t, todo)
      invariant freed + todo == PostOrder(m, t, root)
      invariant Intact(m, mem.pages, root, todo)
      invariant forall f: nat | f < |m| && f !in freed :: mem.pages[f] == m[f]
      decreases |todo|
    {
      var f := it.Ptp(m, t, todo);
      FreedIsSpent(m, t, root, freed, todo);
      var junk: Page := *;
      mem.pages := mem.pages[f := junk];
      freed := freed + [f];
      it.Next(m, t, todo);
      todo := todo[1..];
    }
    var junk: Page := *;
    mem.pages := mem.pages[root := junk];
    freed := freed + [root];
  }

  /** A freed page is not read again, and is a page of memory. */
  lemma FreedIsSpent(m: Memory, t: Tables, root: nat, freed: seq<nat>, todo: seq<nat>)
    requires Forest(m, t) && Root(t, root) && todo != [] && freed + todo == PostOrder(m, t, root)
    ensures todo[0] < |m| && todo[0] != root && todo[0] !in todo[1..]
    ensures freed + [todo[0]] + todo[1..] == PostOrder(m, t, root)
  {
    PostOrderIsComplete(m, t, root);
    var s := PostOrder(m, t, root);
    assert s[|freed|] == todo[0];
    forall k | 0 <= k < |todo[1..]| ensures todo[1..][k] != todo[0] {
      assert s[|freed| + 1 + k] == todo[1..][k];
    }
    assert OnSomePath(m, t, root, todo[0]);
  }
}
