/** The search for the block to extend or to vote for (consensus/engine.go, GetTip). */
module Tip {
  import opened Common
  import opened Votes
  import opened BlockTree

  /** A block the search may enter: processed and, unless pending leaves are wanted, without a
      validator update. */
  ghost predicate Passable(eb: ExtBlock, includeBlockingLeaf: bool) {
    eb.status != Pending && eb.status != Invalid && (includeBlockingLeaf || !eb.hasValidatorUpdate)
  }

  /** A way from `top` to `h` along child links through passable blocks only. */
  ghost predicate IsPath(s: Store, flag: bool, top: Hash, h: Hash, path: seq<Hash>) {
    && path != [] && path[0] == top && path[|path|-1] == h
    && (forall i :: 0 <= i < |path| ==> path[i] in s && Passable(s[path[i]], flag))
    && (forall i :: 0 <= i < |path| - 1 ==> path[i+1] in s[path[i]].children)
  }

  ghost predicate Reachable(s: Store, flag: bool, top: Hash, h: Hash) {
    exists path :: IsPath(s, flag, top, h, path)
  }

  /** A highest block among those reachable from `top`, or `top` itself. */
  ghost predicate IsTip(s: Store, flag: bool, top: Hash, tip: Hash) {
    && tip in s && top in s && s[top].block.height <= s[tip].block.height
    && (tip == top || Reachable(s, flag, top, tip))
    && (forall h :: h in s && Reachable(s, flag, top, h) ==> s[h].block.height <= s[tip].block.height)
  }

  /** The search comes to a child that is not stored, which is fatal. */
  ghost predicate MeetsMissing(s: Store, flag: bool, top: Hash) {
    exists p, c :: MissingChild(s, p, c) && Reachable(s, flag, top, p)
  }

  ghost predicate MissingChild(s: Store, p: Hash, c: Hash) {
    p in s && c in s[p].children && c !in s
  }

  /** What the search answers: nothing if it comes to a missing child, and a tip otherwise. */
  ghost predicate Searched(s: Store, flag: bool, top: Hash, r: Option<Hash>) {
    if MeetsMissing(s, flag, top) then r.None? else r.Some? && IsTip(s, flag, top, r.value)
  }

  /** A stored child is one that names the block as parent; a processed child is one higher. A child
      may be listed twice or be missing. */
  ghost predicate TreeOk(s: Store) {
    forall p, c :: p in s && c in s[p].children && c in s ==>
      && s[c].block.parent == p
      && (BlockTree.IsValid(s[c].status) ==> s[c].block.height == s[p].block.height + 1)
  }

  lemma ExtendPath(s: Store, flag: bool, top: Hash, p: Hash, c: Hash)
    requires Reachable(s, flag, top, p) && p in s && c in s[p].children && c in s && Passable(s[c], flag)
    ensures Reachable(s, flag, top, c)
  {
    var path :| IsPath(s, flag, top, p, path);
    assert IsPath(s, flag, top, c, path + [c]);
  }

  /** A set that holds `top` and, with a passable block, all its children, holds everything
      reachable. */
  lemma {:induction false} ClosedHoldsReachable(s: Store, flag: bool, top: Hash, seen: set<Hash>, h: Hash, path: seq<Hash>)
    requires IsPath(s, flag, top, h, path) && top in seen
    requires forall v, c :: v in seen && v in s && Passable(s[v], flag) && c in s[v].children ==> c in seen
    ensures h in seen
    decreases |path|
  {
    if |path| > 1 {
      var front := path[..|path|-1];
      assert IsPath(s, flag, top, front[|front|-1], front);
      ClosedHoldsReachable(s, flag, top, seen, front[|front|-1], front);
      assert path[|path|-1] in s[path[|path|-2]].children;
    }
  }

  ghost predicate Entered(s: Store, flag: bool, top: Hash, seen: set<Hash>, v: Hash) {
    && top in s && v in s && (BlockTree.IsValid(s[v].status) ==> s[top].block.height <= s[v].block.height)
    && (v == top ||
      var p := s[v].block.parent;
      p in seen && p in s && Passable(s[p], flag) && v in s[p].children && Reachable(s, flag, top, p))
  }

  lemma EnteredIsReachable(s: Store, flag: bool, top: Hash, seen: set<Hash>, v: Hash)
    requires top in s && Entered(s, flag, top, seen, v) && Passable(s[v], flag)
    ensures Reachable(s, flag, top, v)
  {
    if v == top {
      assert IsPath(s, flag, top, top, [top]);
    } else {
      ExtendPath(s, flag, top, s[v].block.parent, v);
    }
  }

  /** Where the search stands: `seen` has been taken off the stack. */
  ghost predicate SearchOk(s: Store, flag: bool, top: Hash, stack: seq<Hash>, seen: set<Hash>) {
    && (top in seen || top in stack)
    && (forall v {:trigger Entered(s, flag, top, seen, v)} :: v in seen || v in stack ==> Entered(s, flag, top, seen, v))
    && (forall v {:trigger ChildrenMet(s, flag, stack, seen, v)} :: v in seen ==> ChildrenMet(s, flag, stack, seen, v))
  }

  ghost predicate ChildrenMet(s: Store, flag: bool, stack: seq<Hash>, seen: set<Hash>, v: Hash) {
    v in s && (Passable(s[v], flag) ==> forall c :: c in s[v].children ==> c in seen || c in stack)
  }

  /** Taking a block off the stack and, if it is passable, putting its children on. */
  lemma SearchStep(s: Store, flag: bool, top: Hash, stack: seq<Hash>, seen: set<Hash>, curr: Hash, added: seq<Hash>)
    requires TreeOk(s) && SearchOk(s, flag, top, stack, seen) && stack != [] && curr == stack[|stack|-1] && curr in s
    requires added == (if Passable(s[curr], flag) then s[curr].children else []) && forall c :: c in added ==> c in s
    ensures Passable(s[curr], flag) ==> Reachable(s, flag, top, curr)
    ensures SearchOk(s, flag, top, stack[..|stack|-1] + added, seen + {curr})
  {
    var rest, more := stack[..|stack|-1], seen + {curr};
    var next := rest + added;
    assert curr in stack && Entered(s, flag, top, seen, curr);
    assert forall v :: v in stack <==> v in rest || v == curr;
    assert forall v :: v in next <==> v in rest || v in added;
    if Passable(s[curr], flag) {
      EnteredIsReachable(s, flag, top, seen, curr);
    }
    forall v | v in more || v in next ensures Entered(s, flag, top, more, v) {
      if v !in added {
        assert Entered(s, flag, top, seen, v);
      }
    }
    forall v | v in more ensures ChildrenMet(s, flag, next, more, v) {
      if v != curr {
        assert ChildrenMet(s, flag, stack, seen, v);
      }
    }
  }

  // ---- the search ends ---------------------------------------------------------------

  /** No stored block is as high as `limit`. */
  ghost predicate Under(s: Store, limit: nat) {
    forall h :: h in s ==> s[h].block.height < limit
  }

  lemma SomeLimit(s: Store) returns (limit: nat)
    ensures Under(s, limit)
    decreases |s|
  {
    limit := 0;
    if h :| h in s {
      limit := SomeLimit(s - {h});
      var more := s[h].block.height + 1;
      assert forall g :: g in s && g != h ==> g in s - {h};
      limit := if more > limit then more else limit;
    }
  }

  /** How many blocks the search takes off the stack on behalf of `v`: itself, and all those below
      it as often as they are listed. */
  ghost function Visits(s: Store, flag: bool, limit: nat, v: Hash): nat
    requires TreeOk(s) && Under(s, limit)
    decreases if v in s then limit - s[v].block.height else 0, 0
  {
    if v in s && Passable(s[v], flag) then 1 + VisitsBelow(s, flag, limit, v, s[v].children) else 1
  }

  ghost function VisitsBelow(s: Store, flag: bool, limit: nat, p: Hash, cs: seq<Hash>): nat
    requires TreeOk(s) && Under(s, limit) && p in s && forall c :: c in cs ==> c in s[p].children
    decreases limit - s[p].block.height, 0, |cs|
  {
    if cs == [] then 0 else
      var c := cs[|cs|-1];
      VisitsBelow(s, flag, limit, p, cs[..|cs|-1])
        + (if c in s && Passable(s[c], flag) then Visits(s, flag, limit, c) else 1)
  }

  ghost function VisitsOf(s: Store, flag: bool, limit: nat, stack: seq<Hash>): nat
    requires TreeOk(s) && Under(s, limit)
    decreases |stack|
  {
    if stack == [] then 0 else VisitsOf(s, flag, limit, stack[..|stack|-1]) + Visits(s, flag, limit, stack[|stack|-1])
  }

  lemma {:induction false} VisitsPushed(s: Store, flag: bool, limit: nat, stack: seq<Hash>, p: Hash, cs: seq<Hash>)
    requires TreeOk(s) && Under(s, limit) && p in s && forall c :: c in cs ==> c in s[p].children
    ensures VisitsOf(s, flag, limit, stack + cs) == VisitsOf(s, flag, limit, stack) + VisitsBelow(s, flag, limit, p, cs)
    decreases |cs|
  {
    hide TreeOk, Under;
    if cs == [] {
      assert stack + cs == stack;
    } else {
      var front := cs[..|cs|-1];
      assert (stack + cs)[..|stack + cs|-1] == stack + front;
      VisitsPushed(s, flag, limit, stack, p, front);
    }
  }

  /** Depth-first over the children lists, where a child may be listed twice. The search ends because
      processed children are higher; it fails exactly if it comes to a missing child, and otherwise
      gives a highest block reachable from the highest committed block. */
  method GetTip(s: Store, top: Hash, includeBlockingLeaf: bool) returns (r: Option<Hash>)
    requires TreeOk(s) && top in s
    ensures Searched(s, includeBlockingLeaf, top, r)
  {
    hide Visits, VisitsBelow;
    ghost var limit := SomeLimit(s);
    var tip := top;
    var stack := [top];
    ghost var seen: set<Hash> := {};
    while stack != []
      invariant seen <= s.Keys && SearchOk(s, includeBlockingLeaf, top, stack, seen) && forall v :: v in stack ==> v in s
      invariant tip in s && s[top].block.height <= s[tip].block.height && (tip == top || Reachable(s, includeBlockingLeaf, top, tip))
      invariant forall v :: v in seen && Passable(s[v], includeBlockingLeaf) ==> s[v].block.height <= s[tip].block.height
      decreases VisitsOf(s, includeBlockingLeaf, limit, stack)
    {
      var curr := stack[|stack|-1];
      ghost var before := stack;
      VisitsAtLeast(s, includeBlockingLeaf, limit, curr);
      stack := stack[..|stack|-1];
      if !BlockTree.IsValid(s[curr].status) || (!includeBlockingLeaf && s[curr].hasValidatorUpdate) {
        SearchStep(s, includeBlockingLeaf, top, before, seen, curr, []);
        assert stack + [] == stack;
        seen := seen + {curr};
        continue;
      }
      EnteredFromStack(s, includeBlockingLeaf, top, before, seen, curr);
      if s[curr].block.height > s[tip].block.height {
        tip := curr;
      }
      ghost var rest := stack;
      for i := 0 to |s[curr].children|
        invariant stack == rest + s[curr].children[..i] && forall j :: 0 <= j < i ==> s[curr].children[j] in s
      {
        if s[curr].children[i] !in s {
          assert MissingChild(s, curr, s[curr].children[i]);
          return None;
        }
        stack := stack + [s[curr].children[i]];
      }
      assert s[curr].children[..|s[curr].children|] == s[curr].children;
      SearchStep(s, includeBlockingLeaf, top, before, seen, curr, s[curr].children);
      VisitsPushed(s, includeBlockingLeaf, limit, rest, curr, s[curr].children);
      seen := seen + {curr};
    }
    SearchDone(s, includeBlockingLeaf, top, seen, tip);
    r := Some(tip);
  }

  lemma VisitsAtLeast(s: Store, flag: bool, limit: nat, v: Hash)
    requires TreeOk(s) && Under(s, limit) && v in s
    ensures Visits(s, flag, limit, v) >= 1
    ensures Passable(s[v], flag) ==> Visits(s, flag, limit, v) == 1 + VisitsBelow(s, flag, limit, v, s[v].children)
  {
  }

  lemma EnteredFromStack(s: Store, flag: bool, top: Hash, stack: seq<Hash>, seen: set<Hash>, curr: Hash)
    requires SearchOk(s, flag, top, stack, seen) && curr in stack && curr in s && Passable(s[curr], flag)
    ensures Reachable(s, flag, top, curr)
  {
    assert Entered(s, flag, top, seen, curr);
    EnteredIsReachable(s, flag, top, seen, curr);
  }

  lemma SearchDone(s: Store, flag: bool, top: Hash, seen: set<Hash>, tip: Hash)
    requires SearchOk(s, flag, top, [], seen) && tip in s && seen <= s.Keys
    requires forall v :: v in seen && Passable(s[v], flag) ==> s[v].block.height <= s[tip].block.height
    ensures forall h :: h in s && Reachable(s, flag, top, h) ==> s[h].block.height <= s[tip].block.height
    ensures !MeetsMissing(s, flag, top)
  {
    forall h | h in s && Reachable(s, flag, top, h) ensures s[h].block.height <= s[tip].block.height {
      var path :| IsPath(s, flag, top, h, path);
      forall v, c | v in seen && v in s && Passable(s[v], flag) && c in s[v].children ensures c in seen {
        assert ChildrenMet(s, flag, [], seen, v);
      }
      ClosedHoldsReachable(s, flag, top, seen, h, path);
      assert Passable(s[path[|path|-1]], flag);
    }
    forall p, c | MissingChild(s, p, c) ensures !Reachable(s, flag, top, p) {
      if Reachable(s, flag, top, p) {
        NothingMissing(s, flag, top, seen, p, c);
      }
    }
  }

  lemma NothingMissing(s: Store, flag: bool, top: Hash, seen: set<Hash>, p: Hash, c: Hash)
    requires SearchOk(s, flag, top, [], seen) && seen <= s.Keys && Reachable(s, flag, top, p) && p in s && c in s[p].children
    ensures c in s
  {
    var path :| IsPath(s, flag, top, p, path);
    forall v, d | v in seen && v in s && Passable(s[v], flag) && d in s[v].children ensures d in seen {
      assert ChildrenMet(s, flag, [], seen, v);
    }
    ClosedHoldsReachable(s, flag, top, seen, p, path);
    assert Passable(s[path[|path|-1]], flag);
  }

  lemma HighestOf(s: Store, hs: set<Hash>) returns (h: Hash)
    requires hs != {} && hs <= s.Keys
    ensures h in hs && forall g :: g in hs ==> s[g].block.height <= s[h].block.height
    decreases hs
  {
    h :| h in hs;
    if hs != {h} {
      var g := HighestOf(s, hs - {h});
      h := if s[g].block.height > s[h].block.height then g else h;
    }
  }

  /** The search has one kind of answer in every store. */
  lemma SomeAnswer(s: Store, flag: bool, top: Hash) returns (r: Option<Hash>)
    requires top in s
    ensures Searched(s, flag, top, r)
  {
    if MeetsMissing(s, flag, top) {
      r := None;
    } else {
      var found := set h | h in s && (h == top || Reachable(s, flag, top, h));
      assert top in found;
      var tip := HighestOf(s, found);
      r := Some(tip);
    }
  }

  lemma TipIsValid(s: Store, flag: bool, top: Hash, tip: Hash)
    requires IsTip(s, flag, top, tip) && BlockTree.IsValid(s[top].status)
    ensures BlockTree.IsValid(s[tip].status)
  {
    if tip != top {
      var path :| IsPath(s, flag, top, tip, path);
      assert Passable(s[path[|path|-1]], flag);
    }
  }
}
