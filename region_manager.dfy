/** The region registry: a dictionary from region names to weak references
    to the content views that hold the regions, and the lookups and
    navigation built on it. The dictionary is static in the library; here it
    is the state of one registry object. */
module RegionManagement {
  import opened Wrappers
  import opened Regions
  import VisualTree
  import UriParsing
  import Pages

  /** A content view's object identity. */
  type HolderId = nat

  /** A dictionary entry: a region name and the view it refers to weakly. */
  datatype Binding = Binding(name: string, holder: HolderId)

  /* ---------------------------------------------------------------- */
  /* The dictionary                                                    */
  /* ---------------------------------------------------------------- */

  /** Region names are keys: each is bound at most once. */
  ghost predicate DistinctNames(es: seq<Binding>) {
    forall i, j :: 0 <= i < j < |es| ==> es[i].name != es[j].name
  }

  /** Each content view is registered under at most one name. */
  ghost predicate DistinctHolders(es: seq<Binding>) {
    forall i, j :: 0 <= i < j < |es| ==> es[i].holder != es[j].holder
  }

  /** No key is blank. */
  ghost predicate NamedBindings(es: seq<Binding>) {
    forall k :: 0 <= k < |es| ==> !UriParsing.IsBlank(es[k].name)
  }

  ghost predicate WellKeyed(es: seq<Binding>) {
    DistinctNames(es) && DistinctHolders(es) && NamedBindings(es)
  }

  /** `TryGetValue`: the view bound to a name, if any. */
  function Lookup(es: seq<Binding>, name: string): (r: Option<HolderId>)
    ensures r.Some? ==> Binding(name, r.value) in es
    ensures r.None? <==> forall k :: 0 <= k < |es| ==> es[k].name != name
    decreases |es|
  {
    if |es| == 0 then None
    else if es[0].name == name then Some(es[0].holder)
    else Lookup(es[1..], name)
  }

  /** `FirstOrDefault` by target: the name the first entry referring to the
      view is bound under, if any. The view is alive when this is asked, so
      the entries referring to it are those whose target is the view. */
  function Owner(es: seq<Binding>, h: HolderId): (r: Option<string>)
    ensures r.Some? ==> Binding(r.value, h) in es
    ensures r.None? <==> forall k :: 0 <= k < |es| ==> es[k].holder != h
    decreases |es|
  {
    if |es| == 0 then None
    else if es[0].holder == h then Some(es[0].name)
    else Owner(es[1..], h)
  }

  /** `Dictionary.Remove` for each name in `gone`: the entries whose name
      is not in `gone`, in their order. */
  function Drop(es: seq<Binding>, gone: set<string>): (r: seq<Binding>)
    decreases |es|
  {
    if |es| == 0 then []
    else (if es[0].name in gone then [] else [es[0]]) + Drop(es[1..], gone)
  }

  /** The names bound to collected views. */
  function DeadNames(es: seq<Binding>, collected: set<HolderId>): set<string> {
    set k | 0 <= k < |es| && es[k].holder in collected :: es[k].name
  }

  /** The dictionary once every entry whose view was collected is
      removed. */
  function Pruned(es: seq<Binding>, collected: set<HolderId>): seq<Binding> {
    Drop(es, DeadNames(es, collected))
  }

  /** `RegionHolders`: the targets of the entries that are still alive, in
      dictionary order. */
  function LiveHolders(es: seq<Binding>, collected: set<HolderId>): (r: seq<HolderId>)
    decreases |es|
  {
    if |es| == 0 then []
    else (if es[0].holder in collected then [] else [es[0].holder]) + LiveHolders(es[1..], collected)
  }

  lemma {:induction false} DropMembers(es: seq<Binding>, gone: set<string>)
    ensures forall b :: b in Drop(es, gone) <==> b in es && b.name !in gone
    decreases |es|
  {
    if |es| > 0 {
      DropMembers(es[1..], gone);
      assert es == [es[0]] + es[1..];
    }
  }

  /** Removing in two rounds is removing once. */
  lemma {:induction false} DropDrop(es: seq<Binding>, a: set<string>, b: set<string>)
    ensures Drop(Drop(es, a), b) == Drop(es, a + b)
    decreases |es|
  {
    if |es| > 0 {
      DropDrop(es[1..], a, b);
      var head := if es[0].name in a then [] else [es[0]];
      DropConcat(head, Drop(es[1..], a), b);
      if es[0].name !in a {
        assert Drop(head, b) == if es[0].name in b then [] else [es[0]] by {
          assert head[1..] == [];
        }
      }
    }
  }

  lemma {:induction false} DropConcat(a: seq<Binding>, b: seq<Binding>, gone: set<string>)
    ensures Drop(a + b, gone) == Drop(a, gone) + Drop(b, gone)
    decreases |a|
  {
    if |a| == 0 {
      assert a + b == b;
    } else {
      assert (a + b)[0] == a[0];
      assert (a + b)[1..] == a[1..] + b;
      DropConcat(a[1..], b, gone);
    }
  }

  /** Removing keeps the dictionary well formed. */
  lemma {:induction false} DropWellFormed(es: seq<Binding>, gone: set<string>)
    requires WellKeyed(es)
    ensures WellKeyed(Drop(es, gone))
    decreases |es|
  {
    if |es| > 0 {
      var rest := es[1..];
      assert WellKeyed(rest) by {
        assert forall k :: 0 <= k < |rest| ==> rest[k] == es[k + 1];
      }
      DropWellFormed(rest, gone);
      if es[0].name !in gone {
        var t := Drop(rest, gone);
        DropMembers(rest, gone);
        forall k | 0 <= k < |t| ensures t[k].name != es[0].name && t[k].holder != es[0].holder {
          assert t[k] in rest;
          var j :| 0 <= j < |rest| && rest[j] == t[k];
          assert rest[j] == es[j + 1];
        }
        ConsWellFormed(es[0], t);
      }
    }
  }

  lemma ConsWellFormed(b: Binding, t: seq<Binding>)
    requires WellKeyed(t) && !UriParsing.IsBlank(b.name)
    requires forall k :: 0 <= k < |t| ==> t[k].name != b.name && t[k].holder != b.holder
    ensures WellKeyed([b] + t)
  {
    var r := [b] + t;
    assert forall k :: 0 < k < |r| ==> r[k] == t[k - 1];
  }

  lemma {:induction false} DropNone(es: seq<Binding>, gone: set<string>)
    requires forall k :: 0 <= k < |es| ==> es[k].name !in gone
    ensures Drop(es, gone) == es
    decreases |es|
  {
    if |es| > 0 {
      DropNone(es[1..], gone);
    }
  }

  lemma DeadNamesPrefix(es: seq<Binding>, collected: set<HolderId>, i: nat)
    requires i < |es|
    ensures DeadNames(es[..i + 1], collected)
            == DeadNames(es[..i], collected) + (if es[i].holder in collected then {es[i].name} else {})
  {
    var a := es[..i + 1];
    assert forall k :: 0 <= k < i ==> a[k] == es[..i][k];
    assert a[i] == es[i];
  }

  /** With names as keys, pruning removes exactly the entries whose view
      was collected. */
  lemma PrunedIsLive(es: seq<Binding>, collected: set<HolderId>)
    requires DistinctNames(es)
    ensures forall b :: b in Pruned(es, collected) <==> b in es && b.holder !in collected
  {
    var gone := DeadNames(es, collected);
    DropMembers(es, gone);
    forall b | b in es && b.holder !in collected ensures b.name !in gone {
      var i :| 0 <= i < |es| && es[i] == b;
    }
  }

  /** After pruning, every view the dictionary refers to is alive. */
  lemma PrunedAlive(es: seq<Binding>, collected: set<HolderId>)
    requires DistinctNames(es)
    ensures forall k :: 0 <= k < |Pruned(es, collected)| ==> Pruned(es, collected)[k].holder !in collected
  {
    PrunedIsLive(es, collected);
    var p := Pruned(es, collected);
    assert forall k :: 0 <= k < |p| ==> p[k] in p;
  }

  /** The entries once the view's own entry, if any, is removed. */
  function Released(es: seq<Binding>, h: HolderId): seq<Binding> {
    if Owner(es, h).Some? then Drop(es, {Owner(es, h).value}) else es
  }

  /** Removing a view's own entry leaves no entry referring to it, keeps
      the dictionary well formed and removes only dead-free entries. */
  lemma ReleasedFacts(es: seq<Binding>, h: HolderId, collected: set<HolderId>)
    requires WellKeyed(es) && forall k :: 0 <= k < |es| ==> es[k].holder !in collected
    ensures Owner(es, h).Some? ==> !UriParsing.IsBlank(Owner(es, h).value)
    ensures WellKeyed(Released(es, h))
    ensures forall k :: 0 <= k < |Released(es, h)| ==> Released(es, h)[k].holder != h
    ensures forall k :: 0 <= k < |Released(es, h)| ==> Released(es, h)[k].holder !in collected
  {
    match Owner(es, h)
    case None =>
    case Some(n) =>
      var rest := Drop(es, {n});
      DropWellFormed(es, {n});
      DropMembers(es, {n});
      var i :| 0 <= i < |es| && es[i] == Binding(n, h);
      forall k | 0 <= k < |rest| ensures rest[k].holder != h && rest[k].holder !in collected {
        assert rest[k] in es && rest[k].name != n;
        var j :| 0 <= j < |es| && es[j] == rest[k];
        assert j != i;
      }
  }

  /** A view is a registry holder exactly when an entry refers to it and it
      was not collected. */
  lemma {:induction false} LiveHoldersMembers(es: seq<Binding>, collected: set<HolderId>, h: HolderId)
    ensures h in LiveHolders(es, collected) <==> h !in collected && exists k :: 0 <= k < |es| && es[k].holder == h
    decreases |es|
  {
    if |es| > 0 {
      LiveHoldersMembers(es[1..], collected, h);
      if exists k :: 0 <= k < |es[1..]| && es[1..][k].holder == h {
        var k :| 0 <= k < |es[1..]| && es[1..][k].holder == h;
        assert es[k + 1].holder == h;
      }
      if exists k :: 0 <= k < |es| && es[k].holder == h {
        var k :| 0 <= k < |es| && es[k].holder == h;
        if k > 0 {
          assert es[1..][k - 1].holder == h;
        }
      }
    }
  }

  /** Distinct holders give a registry-holder list without repeats. */
  lemma {:induction false} LiveHoldersDistinct(es: seq<Binding>, collected: set<HolderId>)
    requires DistinctHolders(es)
    ensures Unique(LiveHolders(es, collected))
    decreases |es|
  {
    if |es| > 0 {
      var rest := es[1..];
      assert DistinctHolders(rest) by {
        assert forall k :: 0 <= k < |rest| ==> rest[k] == es[k + 1];
      }
      LiveHoldersDistinct(rest, collected);
      var t := LiveHolders(rest, collected);
      if es[0].holder !in collected {
        LiveHoldersMembers(rest, collected, es[0].holder);
        assert forall k :: 0 <= k < |rest| ==> rest[k] == es[k + 1];
        var r := [es[0].holder] + t;
        assert forall k :: 0 < k < |r| ==> r[k] == t[k - 1];
      }
    }
  }

  /* ---------------------------------------------------------------- */
  /* Holders below a holder                                            */
  /* ---------------------------------------------------------------- */

  /** A list of holders without repeats. */
  ghost predicate Unique(hs: seq<HolderId>) {
    forall i, j :: 0 <= i < j < |hs| ==> hs[i] != hs[j]
  }

  /** Every holder of the list has a parent chain in the tree. */
  ghost predicate InTree(hs: seq<HolderId>, tree: map<HolderId, seq<VisualTree.Element>>) {
    forall k :: 0 <= k < |hs| ==> hs[k] in tree && |tree[hs[k]]| > 0
  }

  /** `IsParentRegionHolder(x, y)`: `x`'s climb through its parents meets
      `y` before any page (or at the first page). */
  predicate Under(tree: map<HolderId, seq<VisualTree.Element>>, x: HolderId, y: HolderId) {
    x in tree && |tree[x]| > 0 && VisualTree.HolderReached(tree[x], y)
  }

  /** The holders of the list that lie under `holder`; none without a
      holder. */
  function Beneath(hs: seq<HolderId>, holder: Option<HolderId>, tree: map<HolderId, seq<VisualTree.Element>>): (r: seq<HolderId>)
    decreases |hs|
  {
    if |hs| == 0 || holder.None? then []
    else (if Under(tree, hs[0], holder.value) then [hs[0]] else []) + Beneath(hs[1..], holder, tree)
  }

  lemma {:induction false} BeneathMembers(hs: seq<HolderId>, holder: Option<HolderId>, tree: map<HolderId, seq<VisualTree.Element>>)
    ensures forall h :: h in Beneath(hs, holder, tree) <==> h in hs && holder.Some? && Under(tree, h, holder.value)
    decreases |hs|
  {
    if |hs| > 0 && holder.Some? {
      BeneathMembers(hs[1..], holder, tree);
      assert hs == [hs[0]] + hs[1..];
    }
  }

  lemma {:induction false} BeneathUnique(hs: seq<HolderId>, holder: Option<HolderId>, tree: map<HolderId, seq<VisualTree.Element>>)
    requires Unique(hs)
    ensures Unique(Beneath(hs, holder, tree))
    decreases |hs|
  {
    if |hs| > 0 && holder.Some? {
      var rest := hs[1..];
      assert Unique(rest) by {
        assert forall k :: 0 <= k < |rest| ==> rest[k] == hs[k + 1];
      }
      BeneathUnique(rest, holder, tree);
      BeneathMembers(rest, holder, tree);
      var t := Beneath(rest, holder, tree);
      assert forall k :: 0 <= k < |rest| ==> rest[k] == hs[k + 1];
      var r := [hs[0]] + t;
      assert forall k :: 0 < k < |r| ==> r[k] == t[k - 1];
    }
  }

  /** `List.Remove` of each holder in `gone`, on a list without repeats. */
  function Without(hs: seq<HolderId>, gone: set<HolderId>): (r: seq<HolderId>)
    decreases |hs|
  {
    if |hs| == 0 then []
    else (if hs[0] in gone then [] else [hs[0]]) + Without(hs[1..], gone)
  }

  lemma {:induction false} WithoutMembers(hs: seq<HolderId>, gone: set<HolderId>)
    ensures forall h :: h in Without(hs, gone) <==> h in hs && h !in gone
    decreases |hs|
  {
    if |hs| > 0 {
      WithoutMembers(hs[1..], gone);
      assert hs == [hs[0]] + hs[1..];
    }
  }

  lemma {:induction false} WithoutConcat(a: seq<HolderId>, b: seq<HolderId>, gone: set<HolderId>)
    ensures Without(a + b, gone) == Without(a, gone) + Without(b, gone)
    decreases |a|
  {
    if |a| == 0 {
      assert a + b == b;
    } else {
      assert (a + b)[0] == a[0];
      assert (a + b)[1..] == a[1..] + b;
      WithoutConcat(a[1..], b, gone);
    }
  }

  lemma {:induction false} WithoutWithout(hs: seq<HolderId>, a: set<HolderId>, b: set<HolderId>)
    ensures Without(Without(hs, a), b) == Without(hs, a + b)
    decreases |hs|
  {
    if |hs| > 0 {
      WithoutWithout(hs[1..], a, b);
      var head := if hs[0] in a then [] else [hs[0]];
      WithoutConcat(head, Without(hs[1..], a), b);
      if hs[0] !in a {
        assert Without(head, b) == if hs[0] in b then [] else [hs[0]] by {
          assert head[1..] == [];
        }
      }
    }
  }

  /** Two sets that agree on the list's holders remove the same. */
  lemma {:induction false} WithoutAgree(hs: seq<HolderId>, a: set<HolderId>, b: set<HolderId>)
    requires forall k :: 0 <= k < |hs| ==> (hs[k] in a <==> hs[k] in b)
    ensures Without(hs, a) == Without(hs, b)
    decreases |hs|
  {
    if |hs| > 0 {
      assert forall k :: 0 <= k < |hs[1..]| ==> hs[1..][k] == hs[k + 1];
      WithoutAgree(hs[1..], a, b);
    }
  }

  /** What the direct-descendants pass promises: the holders kept are
      candidates in their order, none of them lies under another, and a
      candidate under no other candidate is kept. */
  ghost predicate DirectOnly(hs: seq<HolderId>, cands: seq<HolderId>, tree: map<HolderId, seq<VisualTree.Element>>) {
    hs == Without(cands, set x | x in cands && x !in hs)
    && (forall i, j :: 0 <= i < |hs| && 0 <= j < |hs| ==> !Under(tree, hs[i], hs[j]))
    && (forall x :: x in cands && (forall h :: h in cands ==> !Under(tree, x, h)) ==> x in hs)
  }

  /** Some holder of the list lies above `x`. */
  predicate AnyAbove(all: seq<HolderId>, x: HolderId, tree: map<HolderId, seq<VisualTree.Element>>) {
    exists i :: 0 <= i < |all| && Under(tree, x, all[i])
  }

  /** The candidates from position `k` on. */
  function Visited(cands: seq<HolderId>, k: nat): set<HolderId> {
    set j | k <= j < |cands| :: cands[j]
  }

  /** The state of the direct-descendants pass once the candidates from
      position `k` on are visited: the list is the candidates without the
      removed ones, each removed one was visited and lies under some
      candidate, and no visited candidate still listed lies under a listed
      one. */
  ghost predicate Pass(cands: seq<HolderId>, tree: map<HolderId, seq<VisualTree.Element>>,
                       k: nat, hs: seq<HolderId>, removed: set<HolderId>) {
    k <= |cands| && hs == Without(cands, removed) && removed <= Visited(cands, k)
    && (forall x :: x in removed ==> exists h :: h in cands && Under(tree, x, h))
    && Settled(cands, tree, k, hs, removed)
  }

  lemma PassStart(cands: seq<HolderId>, tree: map<HolderId, seq<VisualTree.Element>>)
    ensures Pass(cands, tree, |cands|, cands, {})
  {
    WithoutNone(cands);
  }

  /** No visited, listed candidate lies under a listed one. */
  ghost predicate Settled(cands: seq<HolderId>, tree: map<HolderId, seq<VisualTree.Element>>,
                          k: nat, hs: seq<HolderId>, removed: set<HolderId>) {
    forall j, i :: k <= j < |cands| && cands[j] !in removed && 0 <= i < |hs| ==> !Under(tree, cands[j], hs[i])
  }

  /** A visited candidate under a listed one leaves the list. */
  lemma PassRemove(cands: seq<HolderId>, tree: map<HolderId, seq<VisualTree.Element>>,
                   k: nat, hs: seq<HolderId>, removed: set<HolderId>)
    requires Unique(cands) && 0 < k && Pass(cands, tree, k, hs, removed) && AnyAbove(hs, cands[k - 1], tree)
    ensures Pass(cands, tree, k - 1, Without(hs, {cands[k - 1]}), removed + {cands[k - 1]})
  {
    var x := cands[k - 1];
    var i :| 0 <= i < |hs| && Under(tree, x, hs[i]);
    WithoutMembers(cands, removed);
    assert hs[i] in hs;
    WithoutWithout(cands, removed, {x});
    assert Settled(cands, tree, k, hs, removed);
    SettledRemove(cands, tree, k, hs, removed);
    assert Visited(cands, k - 1) == Visited(cands, k) + {x};
  }

  lemma SettledRemove(cands: seq<HolderId>, tree: map<HolderId, seq<VisualTree.Element>>,
                      k: nat, hs: seq<HolderId>, removed: set<HolderId>)
    requires 0 < k <= |cands| && Settled(cands, tree, k, hs, removed)
    ensures Settled(cands, tree, k - 1, Without(hs, {cands[k - 1]}), removed + {cands[k - 1]})
  {
    var x := cands[k - 1];
    var after := Without(hs, {x});
    WithoutMembers(hs, {x});
    forall j, i | k - 1 <= j < |cands| && cands[j] !in removed + {x} && 0 <= i < |after|
      ensures !Under(tree, cands[j], after[i])
    {
      assert after[i] in hs;
      var i' :| 0 <= i' < |hs| && hs[i'] == after[i];
    }
  }

  /** A visited candidate under no listed one stays, settled. */
  lemma PassKeep(cands: seq<HolderId>, tree: map<HolderId, seq<VisualTree.Element>>,
                 k: nat, hs: seq<HolderId>, removed: set<HolderId>)
    requires Unique(cands) && 0 < k && Pass(cands, tree, k, hs, removed) && !AnyAbove(hs, cands[k - 1], tree)
    ensures Pass(cands, tree, k - 1, hs, removed)
  {
    var x := cands[k - 1];
    assert Visited(cands, k - 1) == Visited(cands, k) + {x};
  }

  /** Once every candidate is visited, the list is what the pass
      promises. */
  lemma PassEnd(cands: seq<HolderId>, tree: map<HolderId, seq<VisualTree.Element>>,
                hs: seq<HolderId>, removed: set<HolderId>)
    requires Pass(cands, tree, 0, hs, removed)
    ensures DirectOnly(hs, cands, tree)
  {
    WithoutMembers(cands, removed);
    forall i, j | 0 <= i < |hs| && 0 <= j < |hs| ensures !Under(tree, hs[i], hs[j]) {
      assert hs[i] in hs;
      var m :| 0 <= m < |cands| && cands[m] == hs[i];
    }
    WithoutAgree(cands, removed, set x | x in cands && x !in hs);
  }

  /** The `onlyDirectDescendants` pass of `GetRegions`: the candidates are
      visited from the last one, and a candidate under one still in the list
      is removed from it. */
  method DirectHolders(cands: seq<HolderId>, tree: map<HolderId, seq<VisualTree.Element>>) returns (hs: seq<HolderId>)
    requires Unique(cands)
    ensures DirectOnly(hs, cands, tree)
  {
    hs := cands;
    ghost var removed: set<HolderId> := {};
    PassStart(cands, tree);
    var k: nat := |cands|;
    while k > 0
      invariant Pass(cands, tree, k, hs, removed)
    {
      var x := cands[k - 1];
      if AnyAbove(hs, x, tree) {
        PassRemove(cands, tree, k, hs, removed);
        hs := Without(hs, {x});
        removed := removed + {x};
      } else {
        PassKeep(cands, tree, k, hs, removed);
      }
      k := k - 1;
    }
    PassEnd(cands, tree, hs, removed);
  }

  lemma {:induction false} WithoutNone(hs: seq<HolderId>)
    ensures Without(hs, {}) == hs
    decreases |hs|
  {
    if |hs| > 0 {
      WithoutNone(hs[1..]);
    }
  }

  /** The regions attached to the holders, skipping holders without a
      scope. */
  function RegionsOf(hs: seq<HolderId>, scopes: map<HolderId, Region>): (r: seq<Region>)
    decreases |hs|
  {
    if |hs| == 0 then []
    else (if hs[0] in scopes then [scopes[hs[0]]] else []) + RegionsOf(hs[1..], scopes)
  }

  /** The regions yielded are exactly those attached to the holders. */
  lemma {:induction false} RegionsOfMembers(hs: seq<HolderId>, scopes: map<HolderId, Region>, g: Region)
    ensures g in RegionsOf(hs, scopes) <==> exists h :: h in hs && h in scopes && scopes[h] == g
    decreases |hs|
  {
    if |hs| > 0 {
      RegionsOfMembers(hs[1..], scopes, g);
      assert forall h :: h in hs <==> h == hs[0] || h in hs[1..];
    }
  }

  /* ---------------------------------------------------------------- */
  /* The registry                                                      */
  /* ---------------------------------------------------------------- */

  class RegionManager {
    /** The view names registered with the container, shared by every
        region. */
    const registered: set<string>
    /** `_regionHolders`, in enumeration order. */
    var entries: seq<Binding>
    /** The views the garbage collector has reclaimed; their weak references
        have no target. */
    var collected: set<HolderId>
    /** The service scope attached to a holder, given by the region it
        serves. */
    var scopes: map<HolderId, Region>

    ghost predicate Valid()
      reads this
    {
      WellKeyed(entries)
    }

    /** Every region the registry has attached. */
    ghost function Attached(): set<object>
      reads this
    {
      set h | h in scopes :: scopes[h]
    }

    /** Each holder has its own region, and every region is valid and
        knows the registered views. */
    ghost predicate RegionsValid()
      reads this, Attached()
    {
      (forall h1, h2 :: h1 in scopes && h2 in scopes && h1 != h2 ==> scopes[h1] != scopes[h2])
      && forall h :: h in scopes ==> scopes[h].Valid() && scopes[h].registered == registered
    }

    constructor (registered: set<string>)
      ensures Valid() && RegionsValid()
      ensures this.registered == registered && entries == [] && collected == {} && scopes == map[]
    {
      this.registered := registered;
      entries := [];
      collected := {};
      scopes := map[];
    }

    /** The garbage collector reclaims a view. */
    method Collect(h: HolderId)
      modifies this`collected
      ensures collected == old(collected) + {h}
    {
      collected := collected + {h};
    }

    /** `RegionHolders`. */
    function RegionHolders(): (r: seq<HolderId>)
      reads this
      ensures forall h :: h in r <==> h !in collected && exists k :: 0 <= k < |entries| && entries[k].holder == h
    {
      forall h ensures h in LiveHolders(entries, collected) <==> h !in collected && exists k :: 0 <= k < |entries| && entries[k].holder == h {
        LiveHoldersMembers(entries, collected, h);
      }
      LiveHolders(entries, collected)
    }

    /** `GetRegionByName`: an unknown name and a collected view raise;
        otherwise the region attached to the view, if there is one. */
    function GetRegionByName(regionName: string): (r: Result<Option<Region>>)
      reads this
      ensures Lookup(entries, regionName).None? ==> r == Failure(RegionNotRegistered)
      ensures Lookup(entries, regionName).Some? && Lookup(entries, regionName).value in collected
              ==> r == Failure(RegionHolderCollected)
      ensures r.Success? ==> var h := Lookup(entries, regionName).value;
        Binding(regionName, h) in entries && h !in collected
        && r.value == if h in scopes then Some(scopes[h]) else None
    {
      match Lookup(entries, regionName)
      case None => Failure(RegionNotRegistered)
      case Some(h) =>
        if h in collected then Failure(RegionHolderCollected)
        else if h in scopes then Success(Some(scopes[h]))
        else Success(None)
    }

    /** The `foreach` over the entries whose view was collected: each is
        removed from the dictionary. */
    method Prune()
      requires Valid()
      modifies this`entries
      ensures Valid() && entries == Pruned(old(entries), collected)
      ensures forall k :: 0 <= k < |entries| ==> entries[k].holder !in collected
    {
      var snap := entries;
      var i := 0;
      assert DeadNames(snap[..0], collected) == {};
      DropNone(snap, {});
      while i < |snap|
        invariant 0 <= i <= |snap|
        invariant entries == Drop(snap, DeadNames(snap[..i], collected))
      {
        ghost var dead := DeadNames(snap[..i], collected);
        DeadNamesPrefix(snap, collected, i);
        if snap[i].holder in collected {
          DropDrop(snap, dead, {snap[i].name});
          entries := Drop(entries, {snap[i].name});
          assert entries == Drop(snap, DeadNames(snap[..i + 1], collected));
        } else {
          assert DeadNames(snap[..i + 1], collected) == dead;
        }
        i := i + 1;
      }
      assert snap[..i] == snap;
      DropWellFormed(snap, DeadNames(snap, collected));
      PrunedAlive(snap, collected);
    }

    /** `RemoveHolder`: a blank key changes nothing; otherwise the entries
        whose view was collected go, then the key's entry, if any. */
    method RemoveHolder(key: Option<string>)
      requires Valid()
      modifies this`entries
      ensures Valid()
      ensures key.None? || UriParsing.IsBlank(key.value) ==> entries == old(entries)
      ensures key.Some? && !UriParsing.IsBlank(key.value) ==>
        entries == Drop(Pruned(old(entries), collected), {key.value})
        && Lookup(entries, key.value).None?
        && forall b :: b in entries <==> b in old(entries) && b.holder !in collected && b.name != key.value
    {
      if key.None? || UriParsing.IsBlank(key.value) {
        return;
      }
      ghost var before := entries;
      Prune();
      PrunedIsLive(before, collected);
      ghost var pruned := entries;
      if Lookup(entries, key.value).None? {
        DropNone(entries, {key.value});
        DropMembers(entries, {key.value});
        return;
      }
      DropWellFormed(entries, {key.value});
      DropMembers(entries, {key.value});
      entries := Drop(entries, {key.value});
      assert Lookup(entries, key.value).None? by {
        forall k | 0 <= k < |entries| ensures entries[k].name != key.value {
          assert entries[k] in entries;
        }
      }
    }

    /** `OnRegionNameChanged`: a view that is not a content view, or a name
        that is null or blank, changes nothing. Otherwise the entries whose
        view was collected go, then the view's own entry; a name still bound
        raises (the removals stay done), and a free name is bound to the
        view. */
    method OnRegionNameChanged(cv: HolderId, isContentView: bool, newValue: Option<string>) returns (r: Result<()>)
      requires Valid() && cv !in collected
      modifies this`entries
      ensures Valid()
      ensures !isContentView || newValue.None? || UriParsing.IsBlank(newValue.value) ==>
        r == Success(()) && entries == old(entries)
      ensures isContentView && newValue.Some? && !UriParsing.IsBlank(newValue.value) ==>
        var rest := Released(Pruned(old(entries), collected), cv);
        (Lookup(rest, newValue.value).Some? ==> r == Failure(RegionNameTaken) && entries == rest)
        && (Lookup(rest, newValue.value).None? ==>
              r == Success(()) && entries == rest + [Binding(newValue.value, cv)]
              && Lookup(entries, newValue.value) == Some(cv) && Owner(entries, cv) == Some(newValue.value))
    {
      if !isContentView || newValue.None? || UriParsing.IsBlank(newValue.value) {
        return Success(());
      }
      var newKey := newValue.value;
      Prune();
      ReleaseOwn(cv);
      var bound := Lookup(entries, newKey);
      if bound.Some? && bound.value !in collected {
        return Failure(RegionNameTaken);
      }
      Bind(newKey, cv);
      r := Success(());
    }

    /** The `FirstOrDefault` step: the view's own entry, found under a name
        that is not blank, is removed. */
    method ReleaseOwn(cv: HolderId)
      requires Valid() && forall k :: 0 <= k < |entries| ==> entries[k].holder !in collected
      modifies this`entries
      ensures Valid() && entries == Released(old(entries), cv)
      ensures forall k :: 0 <= k < |entries| ==> entries[k].holder != cv && entries[k].holder !in collected
    {
      ReleasedFacts(entries, cv, collected);
      var owner := Owner(entries, cv);
      if owner.Some? && !UriParsing.IsBlank(owner.value) {
        entries := Drop(entries, {owner.value});
      }
    }

    /** The indexer store of a name no entry holds: the binding is
        added. */
    method Bind(newKey: string, cv: HolderId)
      requires Valid() && !UriParsing.IsBlank(newKey)
      requires forall k :: 0 <= k < |entries| ==> entries[k].holder != cv && entries[k].holder !in collected
      requires Lookup(entries, newKey).Some? ==> Lookup(entries, newKey).value in collected
      modifies this`entries
      ensures Valid() && entries == old(entries) + [Binding(newKey, cv)]
      ensures Lookup(entries, newKey) == Some(cv) && Owner(entries, cv) == Some(newKey)
    {
      AppendWellFormed(entries, Binding(newKey, cv));
      LookupAppended(entries, Binding(newKey, cv));
      entries := entries + [Binding(newKey, cv)];
    }

    /** The state `NavigateTo` leaves for a live holder `h`: its scope is
        reused, or created with a fresh empty region named after the key;
        an unknown view leaves that region as it was, and a registered one
        is the region's only view, initialized, with the old views
        navigated from, the new one navigated to and the old views
        destroyed last to first, as `ReplaceAll` does. */
    twostate predicate Navigated(h: HolderId, regionName: string, viewName: string)
      reads this, Attached()
    {
      h in scopes
      && (h in old(scopes) ==> scopes == old(scopes))
      && (h !in old(scopes) ==>
            scopes == old(scopes)[h := scopes[h]] && fresh(scopes[h])
            && scopes[h].regionName == regionName && scopes[h].registered == registered)
      && var g := scopes[h];
      (viewName !in registered ==>
            if h in old(scopes) then unchanged(g)
            else g.children == [] && g.log == [] && g.next == 0)
      && (viewName in registered ==>
            var oc := if h in old(scopes) then old(g.children) else [];
            var ol := if h in old(scopes) then old(g.log) else [];
            var v := View(if h in old(scopes) then old(g.next) else 0, viewName);
            g.next == v.id + 1 && g.children == [Entry(v, true)]
            && g.log == ol + [ViewInitialized(v.id)] + NavigatedTrace(oc, false, New)
                        + NavigatedTrace(g.children, true, New) + Destroyed(Pages.Reverse(Views(oc))))
    }

    /** `NavigateTo`: an unknown name and a collected view fail the
        navigation; otherwise the view's scope is created on first use, with
        a fresh region named after the key, and the region replaces its
        views with the named one. */
    method NavigateTo(regionName: string, viewName: string) returns (r: NavigationResult)
      requires Valid() && RegionsValid()
      modifies this`scopes, Attached()
      ensures Valid() && RegionsValid() && entries == old(entries) && collected == old(collected)
      ensures Lookup(entries, regionName).None? ==>
        r == Failed(RegionNotRegistered) && scopes == old(scopes)
        && forall h' :: h' in old(scopes) ==> unchanged(old(scopes)[h'])
      ensures Lookup(entries, regionName).Some? && Lookup(entries, regionName).value in collected ==>
        r == Failed(RegionHolderCollected) && scopes == old(scopes)
        && forall h' :: h' in old(scopes) ==> unchanged(old(scopes)[h'])
      ensures Lookup(entries, regionName).Some? && Lookup(entries, regionName).value !in collected ==>
        var h := Lookup(entries, regionName).value;
        h in scopes && GetRegionByName(regionName) == Success(Some(scopes[h]))
        && r == (if viewName in registered then Succeeded else Failed(ViewNotRegistered(viewName)))
        && Navigated(h, regionName, viewName)
        && forall h' :: h' in old(scopes) && h' != h ==> unchanged(old(scopes)[h'])
    {
      var found := Lookup(entries, regionName);
      if found.None? {
        return Failed(RegionNotRegistered);
      }
      var h := found.value;
      if h in collected {
        return Failed(RegionHolderCollected);
      }
      r := NavigateHolder(h, regionName, viewName);
    }

    /** The lookups have found a live holder: its region replaces its
        views. */
    method NavigateHolder(h: HolderId, regionName: string, viewName: string) returns (r: NavigationResult)
      requires RegionsValid()
      modifies this`scopes, Attached()
      ensures RegionsValid() && h in scopes
      ensures r == (if viewName in registered then Succeeded else Failed(ViewNotRegistered(viewName)))
      ensures Navigated(h, regionName, viewName)
      ensures forall h' :: h' in old(scopes) && h' != h ==> unchanged(old(scopes)[h'])
    {
      var region := ScopeFor(h, regionName);
      r := region.ReplaceAll(viewName);
      forall h' | h' in scopes ensures scopes[h'].Valid() {
        if h' != h {
          assert scopes[h'] != region;
        }
      }
    }

    /** `GetServiceScope`, or a new scope whose region accessor is given
        the key and the holder when the holder has none yet. */
    method ScopeFor(h: HolderId, regionName: string) returns (region: Region)
      requires RegionsValid()
      modifies this`scopes
      ensures RegionsValid() && h in scopes && region == scopes[h] && region.registered == registered
      ensures h in old(scopes) ==> scopes == old(scopes)
      ensures h !in old(scopes) ==>
        (scopes == old(scopes)[h := region] && fresh(region)
         && region.regionName == regionName && region.children == [] && region.log == [] && region.next == 0)
    {
      if h in scopes {
        region := scopes[h];
      } else {
        region := new Region(registered, regionName);
        scopes := scopes[h := region];
      }
    }

    /** `GetRegions`: the registry holders under `regionHolder`, reduced to
        those under no other of them when only direct descendants are
        wanted, give the regions attached to them. `holders` are the holders
        whose regions are yielded, in order. */
    method GetRegions(regionHolder: Option<HolderId>, onlyDirect: bool, tree: map<HolderId, seq<VisualTree.Element>>)
      returns (rs: seq<Region>, holders: seq<HolderId>)
      requires Valid() && InTree(LiveHolders(entries, collected), tree)
      ensures var cands := Beneath(LiveHolders(entries, collected), regionHolder, tree);
        (!onlyDirect ==> holders == cands) && (onlyDirect ==> DirectOnly(holders, cands, tree))
      ensures forall h :: h in holders ==> h in RegionHolders() && regionHolder.Some? && Under(tree, h, regionHolder.value)
      ensures rs == RegionsOf(holders, scopes)
      ensures regionHolder.None? ==> rs == []
    {
      var all := RegionHolders();
      var cands := Beneath(all, regionHolder, tree);
      BeneathMembers(all, regionHolder, tree);
      holders := cands;
      if onlyDirect {
        LiveHoldersDistinct(entries, collected);
        BeneathUnique(all, regionHolder, tree);
        holders := DirectHolders(cands, tree);
        WithoutMembers(cands, set x | x in cands && x !in holders);
      }
      rs := RegionsOf(holders, scopes);
    }
  }

  lemma AppendWellFormed(es: seq<Binding>, b: Binding)
    requires WellKeyed(es) && !UriParsing.IsBlank(b.name)
    requires forall k :: 0 <= k < |es| ==> es[k].name != b.name && es[k].holder != b.holder
    ensures WellKeyed(es + [b])
  {
    var r := es + [b];
    assert forall k :: 0 <= k < |es| ==> r[k] == es[k];
  }

  /** A binding added under a new name and for a new view is what both
      lookups find. */
  lemma {:induction false} LookupAppended(es: seq<Binding>, b: Binding)
    requires forall k :: 0 <= k < |es| ==> es[k].name != b.name && es[k].holder != b.holder
    ensures Lookup(es + [b], b.name) == Some(b.holder) && Owner(es + [b], b.holder) == Some(b.name)
    decreases |es|
  {
    if |es| == 0 {
      assert (es + [b])[1..] == [];
    } else {
      assert (es + [b])[1..] == es[1..] + [b];
      assert forall k :: 0 <= k < |es[1..]| ==> es[1..][k] == es[k + 1];
      LookupAppended(es[1..], b);
    }
  }
}
