/** Lookup through symbolic links: when it ends, and what it finds. */
module SymLinks {
  import opened GoBytes
  import opened Paths
  import opened VirtualFile
  import opened FlatTree

  /** Every lookup from the root ends when links nest at most `depth` deep. */
  ghost predicate Settles(flat: Flat, depth: nat) {
    forall names: seq<Str> :: Walk(flat, [], names, depth) != TooDeep
  }

  /** A larger allowance never changes a lookup that ended. */
  lemma {:induction false} DeeperIsSame(flat: Flat, cwd: Path, names: seq<Str>, d: nat, e: nat)
    requires d <= e && Walk(flat, cwd, names, d) != TooDeep
    ensures Walk(flat, cwd, names, e) == Walk(flat, cwd, names, d)
    decreases d, |names|
  {
    hide Walked;
    if names != [] {
      if IsLink(flat, cwd) {
        DeeperIsSame(flat, [], Walked(flat[cwd].content), d - 1, e - 1);
      }
      var base := Base(flat, cwd, d);
      if base.Found? && base.path + [names[0]] in flat {
        DeeperIsSame(flat, base.path + [names[0]], names[1..], d, e);
      }
    }
  }

  /** One step of a lookup, at the i-th name. */
  lemma WalkStep(flat: Flat, cwd: Path, names: seq<Str>, i: nat, depth: nat)
    requires i < |names|
    ensures IsLink(flat, cwd) && Walk(flat, cwd, names[i..], depth) != TooDeep ==>
              depth > 0 && Walk(flat, [], Walked(flat[cwd].content), depth - 1) != TooDeep
    ensures IsLink(flat, cwd) && depth > 0 ==>
              var base := Walk(flat, [], Walked(flat[cwd].content), depth - 1);
              && (base == Missing ==> Walk(flat, cwd, names[i..], depth) == Missing)
              && (base.Found? ==> Walk(flat, cwd, names[i..], depth) == Below(flat, base.path, names, i, depth))
    ensures !IsLink(flat, cwd) ==> Walk(flat, cwd, names[i..], depth) == Below(flat, cwd, names, i, depth)
  {
    hide Walked;
    assert Base(flat, cwd, depth) == TooDeep ==> Walk(flat, cwd, names[i..], depth) == TooDeep;
    assert names[i..][0] == names[i] && names[i..][1..] == names[i + 1..];
  }

  /** The lookup's continuation below a node whose links are already followed. */
  ghost function Below(flat: Flat, q: Path, names: seq<Str>, i: nat, depth: nat): Lookup
    requires i < |names|
  {
    if q + [names[i]] in flat then Walk(flat, q + [names[i]], names[i + 1..], depth) else Missing
  }

  lemma WalkDone(flat: Flat, cwd: Path, depth: nat)
    ensures Walk(flat, cwd, [], depth) == Found(cwd)
  {
  }

  // ---------- rankings ----------

  /** A lookup that follows a link only when it ranks below `bound`, and resolves its target below
      the link's own rank. */
  ghost function RankedWalk(flat: Flat, rank: map<Path, nat>, cwd: Path, names: seq<Str>, bound: nat): Lookup
    decreases bound, |names|, 1
  {
    if names == [] then Found(cwd)
    else match RankedBase(flat, rank, cwd, bound)
      case Found(q) =>
        if q + [names[0]] in flat then RankedWalk(flat, rank, q + [names[0]], names[1..], bound) else Missing
      case other => other
  }

  ghost function RankedBase(flat: Flat, rank: map<Path, nat>, cwd: Path, bound: nat): Lookup
    decreases bound, 0, 0
  {
    if !IsLink(flat, cwd) then Found(cwd)
    else if cwd !in rank || rank[cwd] >= bound then TooDeep
    else RankedWalk(flat, rank, [], Walked(flat[cwd].content), rank[cwd])
  }

  /** The ranking makes the links acyclic: resolving a link's target only follows lower links. */
  ghost predicate Ranks(flat: Flat, rank: map<Path, nat>) {
    forall p <- flat :: IsLink(flat, p) ==>
      p in rank && RankedWalk(flat, rank, [], Walked(flat[p].content), rank[p]) != TooDeep
  }

  lemma {:induction false} RankedIsWalk(flat: Flat, rank: map<Path, nat>, cwd: Path, names: seq<Str>, bound: nat)
    requires RankedWalk(flat, rank, cwd, names, bound) != TooDeep
    ensures Walk(flat, cwd, names, bound) == RankedWalk(flat, rank, cwd, names, bound)
    decreases bound, |names|
  {
    hide Walked;
    if names != [] {
      if IsLink(flat, cwd) {
        var target := Walked(flat[cwd].content);
        RankedIsWalk(flat, rank, [], target, rank[cwd]);
        DeeperIsSame(flat, [], target, rank[cwd], bound - 1);
      }
      var base := RankedBase(flat, rank, cwd, bound);
      if base.Found? && base.path + [names[0]] in flat {
        RankedIsWalk(flat, rank, base.path + [names[0]], names[1..], bound);
      }
    }
  }

  lemma {:induction false} AboveAllRanks(flat: Flat, rank: map<Path, nat>, cwd: Path, names: seq<Str>, bound: nat)
    requires Ranks(flat, rank) && forall p <- rank :: rank[p] < bound
    ensures RankedWalk(flat, rank, cwd, names, bound) != TooDeep
    decreases |names|
  {
    if names != [] {
      var base := RankedBase(flat, rank, cwd, bound);
      if base.Found? && base.path + [names[0]] in flat {
        AboveAllRanks(flat, rank, base.path + [names[0]], names[1..], bound);
      }
    }
  }

  lemma {:induction false} RanksAreBounded(rank: map<Path, nat>) returns (bound: nat)
    ensures forall p <- rank :: rank[p] < bound
    decreases |rank|
  {
    if |rank| == 0 {
      bound := 0;
    } else {
      var p :| p in rank;
      var rest := rank - {p};
      assert |rest.Keys| < |rank.Keys| by {
        assert rest.Keys == rank.Keys - {p};
      }
      var b := RanksAreBounded(rest);
      bound := Max(b, rank[p] + 1);
      forall q | q in rank
        ensures rank[q] < bound
      {
        assert q != p ==> q in rest;
      }
    }
  }

  /** Given a ranking of the links, every lookup terminates. */
  lemma RankedLookupsSettle(flat: Flat, rank: map<Path, nat>)
    requires Ranks(flat, rank)
    ensures exists depth: nat :: Settles(flat, depth)
  {
    var bound := RanksAreBounded(rank);
    forall names: seq<Str>
      ensures Walk(flat, [], names, bound) != TooDeep
    {
      AboveAllRanks(flat, rank, [], names, bound);
      RankedIsWalk(flat, rank, [], names, bound);
    }
    assert Settles(flat, bound);
  }

  ghost predicate EndsWithin(flat: Flat, names: seq<Str>, d: nat) {
    Walk(flat, [], names, d) != TooDeep
  }

  /** The least allowance with which a lookup ends. */
  ghost function Least(flat: Flat, names: seq<Str>, d: nat): (m: nat)
    requires EndsWithin(flat, names, d)
    ensures m <= d && EndsWithin(flat, names, m)
    ensures m > 0 ==> !EndsWithin(flat, names, m - 1)
  {
    hide EndsWithin;
    if d == 0 || !EndsWithin(flat, names, d - 1) then d else Least(flat, names, d - 1)
  }

  lemma LeastIsBelow(flat: Flat, names: seq<Str>, d: nat, k: nat)
    requires EndsWithin(flat, names, d) && EndsWithin(flat, names, k)
    ensures Least(flat, names, d) <= k
  {
    hide Walk;
    var m := Least(flat, names, d);
    if k < m {
      DeeperIsSame(flat, [], names, k, m - 1);
    }
  }

  ghost function LeastRank(flat: Flat, depth: nat): map<Path, nat>
    requires Settles(flat, depth)
  {
    map p | p in flat && IsLink(flat, p) :: Least(flat, Walked(flat[p].content), depth)
  }

  lemma {:induction false} LeastRankFollows(flat: Flat, depth: nat, cwd: Path, names: seq<Str>, b: nat)
    requires Settles(flat, depth)
    requires Walk(flat, cwd, names, b) != TooDeep
    ensures RankedWalk(flat, LeastRank(flat, depth), cwd, names, b) == Walk(flat, cwd, names, b)
    decreases b, |names|
  {
    hide Walked;
    if names != [] {
      var rank := LeastRank(flat, depth);
      if IsLink(flat, cwd) {
        var target := Walked(flat[cwd].content);
        var m := rank[cwd];
        LeastIsBelow(flat, target, depth, b - 1);
        LeastRankFollows(flat, depth, [], target, m);
        DeeperIsSame(flat, [], target, m, b - 1);
      }
      var base := Base(flat, cwd, b);
      if base.Found? && base.path + [names[0]] in flat {
        LeastRankFollows(flat, depth, base.path + [names[0]], names[1..], b);
      }
    }
  }

  /** A lookup that ends, with some allowance. */
  ghost predicate Ends(flat: Flat, cwd: Path, names: seq<Str>) {
    exists depth: nat :: Walk(flat, cwd, names, depth) != TooDeep
  }

  ghost function Links(flat: Flat): set<Path> {
    set p | p in flat && IsLink(flat, p)
  }

  /** There are finitely many links, so one allowance is enough for all their targets that end. */
  lemma {:induction false} TargetsAreBounded(flat: Flat, links: set<Path>) returns (bound: nat)
    requires links <= Links(flat) && forall p <- links :: Ends(flat, [], Walked(flat[p].content))
    ensures forall p <- links :: Walk(flat, [], Walked(flat[p].content), bound) != TooDeep
    decreases |links|
  {
    hide Walked, Walk;
    if links == {} {
      bound := 0;
    } else {
      var p :| p in links;
      assert Ends(flat, [], Walked(flat[p].content));
      var d: nat :| Walk(flat, [], Walked(flat[p].content), d) != TooDeep;
      var e := TargetsAreBounded(flat, links - {p});
      bound := Max(d, e);
      forall q | q in links
        ensures Walk(flat, [], Walked(flat[q].content), bound) != TooDeep
      {
        DeeperIsSame(flat, [], Walked(flat[q].content), if q == p then d else e, bound);
      }
    }
  }

  /** When every link's target ends within an allowance, every lookup ends within one more. */
  lemma {:induction false} TargetsSuffice(flat: Flat, cwd: Path, names: seq<Str>, d: nat)
    requires forall p <- Links(flat) :: Walk(flat, [], Walked(flat[p].content), d) != TooDeep
    ensures Walk(flat, cwd, names, d + 1) != TooDeep
    decreases |names|
  {
    hide Walked;
    if names != [] {
      assert IsLink(flat, cwd) ==> cwd in Links(flat);
      var base := Base(flat, cwd, d + 1);
      if base.Found? && base.path + [names[0]] in flat {
        TargetsSuffice(flat, base.path + [names[0]], names[1..], d);
      }
    }
  }

  /** When every lookup ends, with whatever allowance it takes, one allowance is enough for all. */
  lemma EndingIsUniform(flat: Flat)
    requires forall names: seq<Str> :: Ends(flat, [], names)
    ensures exists depth: nat :: Settles(flat, depth)
  {
    hide Walk, Walked, Ends;
    var d := TargetsAreBounded(flat, Links(flat));
    var bound := d + 1;
    forall names: seq<Str>
      ensures Walk(flat, [], names, bound) != TooDeep
    {
      TargetsSuffice(flat, [], names, d);
    }
    assert Settles(flat, bound);
  }

  lemma SettledEnds(flat: Flat, depth: nat, names: seq<Str>)
    requires Settles(flat, depth)
    ensures Ends(flat, [], names)
  {
    hide Walk;
    assert Walk(flat, [], names, depth) != TooDeep;
  }

  /** Every lookup terminates exactly when the links can be ranked, and then within one allowance. */
  lemma LookupsEndExactlyWhenRanked(flat: Flat)
    ensures (forall names: seq<Str> :: Ends(flat, [], names)) <==> (exists rank: map<Path, nat> :: Ranks(flat, rank))
    ensures (forall names: seq<Str> :: Ends(flat, [], names)) <==> (exists depth: nat :: Settles(flat, depth))
  {
    hide Walked, Ends, Walk, RankedWalk;
    if forall names: seq<Str> :: Ends(flat, [], names) {
      EndingIsUniform(flat);
      var depth: nat :| Settles(flat, depth);
      LeastRankRanks(flat, depth);
    }
    if exists rank: map<Path, nat> :: Ranks(flat, rank) {
      var rank: map<Path, nat> :| Ranks(flat, rank);
      RankedLookupsSettle(flat, rank);
    }
    if exists depth: nat :: Settles(flat, depth) {
      var depth: nat :| Settles(flat, depth);
      forall names: seq<Str>
        ensures Ends(flat, [], names)
      {
        SettledEnds(flat, depth, names);
      }
    }
  }

  lemma LeastRankRanks(flat: Flat, depth: nat)
    requires Settles(flat, depth)
    ensures Ranks(flat, LeastRank(flat, depth))
  {
    hide Walked;
    var rank := LeastRank(flat, depth);
    forall p | p in flat && IsLink(flat, p)
      ensures RankedWalk(flat, rank, [], Walked(flat[p].content), rank[p]) != TooDeep
    {
      LeastRankFollows(flat, depth, [], Walked(flat[p].content), rank[p]);
    }
  }

  // ---------- cycles ----------

  /** After k of the names, found with some allowance, a lookup stands at the link q and goes on. */
  ghost predicate LeadsTo(flat: Flat, cwd: Path, names: seq<Str>, k: nat, q: Path) {
    && k < |names| && IsLink(flat, q)
    && exists depth: nat :: Walk(flat, cwd, names[..k], depth) == Found(q)
  }

  /** A lookup leads through a link of the set. */
  ghost predicate Through(flat: Flat, cwd: Path, names: seq<Str>, links: set<Path>) {
    exists k: nat, q :: q in links && LeadsTo(flat, cwd, names, k, q)
  }

  /** Links that lead through one another: the target of each leads through one of them. A link that
      leads through itself is such a cycle of one. */
  ghost predicate Cyclic(flat: Flat, links: set<Path>) {
    forall p <- links :: p in flat && IsLink(flat, p) && Through(flat, [], Walked(flat[p].content), links)
  }

  /** A lookup that leads through a cycle never ends. */
  lemma {:induction false} CycleNeverSettles(flat: Flat, links: set<Path>, cwd: Path, names: seq<Str>, depth: nat)
    requires Cyclic(flat, links) && Through(flat, cwd, names, links)
    ensures Walk(flat, cwd, names, depth) == TooDeep
    decreases depth
  {
    hide *;
    var k, q := FirstThrough(flat, links, cwd, names);
    if depth > 0 {
      CycleNeverSettles(flat, links, [], Walked(flat[q].content), depth - 1);
    }
    StopsAtLink(flat, cwd, names, k, q, depth);
  }

  lemma FirstThrough(flat: Flat, links: set<Path>, cwd: Path, names: seq<Str>) returns (k: nat, q: Path)
    requires Cyclic(flat, links) && Through(flat, cwd, names, links)
    ensures q in links && q in flat && LeadsTo(flat, cwd, names, k, q)
    ensures Through(flat, [], Walked(flat[q].content), links)
  {
    hide Walk, Walked, LeadsTo;
    k, q :| q in links && LeadsTo(flat, cwd, names, k, q);
  }

  /** A lookup that leads to a link is too deep when the link's target is. */
  lemma StopsAtLink(flat: Flat, cwd: Path, names: seq<Str>, k: nat, q: Path, depth: nat)
    requires LeadsTo(flat, cwd, names, k, q) && q in flat
    requires depth > 0 ==> Walk(flat, [], Walked(flat[q].content), depth - 1) == TooDeep
    ensures Walk(flat, cwd, names, depth) == TooDeep
  {
    assert Walk(flat, q, names[k..], depth) == TooDeep by {
      hide Walked;
    }
    hide Walk, Walked;
    var d: nat :| Walk(flat, cwd, names[..k], d) == Found(q);
    assert names == names[..k] + names[k..];
    WalkAppend(flat, cwd, names[..k], names[k..], depth);
    if Walk(flat, cwd, names[..k], depth) != TooDeep {
      OneOutcome(flat, cwd, names[..k], d, depth);
    }
  }

  /** Lookups that end with two allowances find the same. */
  lemma OneOutcome(flat: Flat, cwd: Path, names: seq<Str>, d: nat, e: nat)
    requires Walk(flat, cwd, names, d) != TooDeep && Walk(flat, cwd, names, e) != TooDeep
    ensures Walk(flat, cwd, names, d) == Walk(flat, cwd, names, e)
  {
    hide Walk;
    if d <= e {
      DeeperIsSame(flat, cwd, names, d, e);
    } else {
      DeeperIsSame(flat, cwd, names, e, d);
    }
  }

  /** The links whose targets never end. */
  ghost function Endless(flat: Flat): set<Path> {
    set p | p in flat && IsLink(flat, p) && !Ends(flat, [], Walked(flat[p].content))
  }

  /** A lookup that never ends leads through a link whose target never ends. */
  lemma {:induction false} EndlessLeadsThrough(flat: Flat, cwd: Path, names: seq<Str>)
    requires !Ends(flat, cwd, names)
    ensures Through(flat, cwd, names, Endless(flat))
    decreases |names|
  {
    hide Walked;
    assert Walk(flat, cwd, names, 0) == TooDeep;
    if IsLink(flat, cwd) && cwd in Endless(flat) {
      assert Walk(flat, cwd, names[..0], 0) == Found(cwd);
      assert LeadsTo(flat, cwd, names, 0, cwd);
    } else {
      var d := BaseEnds(flat, cwd);
      EndlessStep(flat, cwd, names, d);
      var next := Base(flat, cwd, d).path + [names[0]];
      EndlessLeadsThrough(flat, next, names[1..]);
      var k: nat, link :| link in Endless(flat) && LeadsTo(flat, next, names[1..], k, link);
      LeadsFurther(flat, cwd, names, d, k, link);
    }
  }

  lemma BaseEnds(flat: Flat, cwd: Path) returns (d: nat)
    requires !(IsLink(flat, cwd) && cwd in Endless(flat))
    ensures Base(flat, cwd, d) != TooDeep
  {
    hide Walk, Walked;
    d := 0;
    if IsLink(flat, cwd) {
      d :| Walk(flat, [], Walked(flat[cwd].content), d) != TooDeep;
      d := d + 1;
    }
  }

  /** Following a link to the same end takes no more than the allowance it took. */
  lemma BaseIsSame(flat: Flat, cwd: Path, d: nat, e: nat)
    requires Base(flat, cwd, d) != TooDeep && d <= e
    ensures Base(flat, cwd, e) == Base(flat, cwd, d)
  {
    hide Walked;
    if IsLink(flat, cwd) {
      DeeperIsSame(flat, [], Walked(flat[cwd].content), d - 1, e - 1);
    }
  }

  /** Past a link that ends, an endless lookup is still endless. */
  lemma EndlessStep(flat: Flat, cwd: Path, names: seq<Str>, d: nat)
    requires !Ends(flat, cwd, names) && names != [] && Base(flat, cwd, d) != TooDeep
    ensures var base := Base(flat, cwd, d);
            && base.Found? && base.path + [names[0]] in flat
            && !Ends(flat, base.path + [names[0]], names[1..])
  {
    hide Walked;
    var base := Base(flat, cwd, d);
    assert Walk(flat, cwd, names, d) == TooDeep;
    assert base.Found? && base.path + [names[0]] in flat;
    var next := base.path + [names[0]];
    forall e: nat
      ensures Walk(flat, next, names[1..], e) == TooDeep
    {
      var m := Max(d, e);
      BaseIsSame(flat, cwd, d, m);
      assert Walk(flat, cwd, names, m) == TooDeep;
      if Walk(flat, next, names[1..], e) != TooDeep {
        DeeperIsSame(flat, next, names[1..], e, m);
      }
    }
  }

  lemma LeadsFurther(flat: Flat, cwd: Path, names: seq<Str>, d: nat, k: nat, link: Path)
    requires names != [] && Base(flat, cwd, d).Found? && Base(flat, cwd, d).path + [names[0]] in flat
    requires LeadsTo(flat, Base(flat, cwd, d).path + [names[0]], names[1..], k, link)
    ensures LeadsTo(flat, cwd, names, k + 1, link)
  {
    hide Walked;
    var next := Base(flat, cwd, d).path + [names[0]];
    var e: nat :| Walk(flat, next, names[1..][..k], e) == Found(link);
    var m := Max(d, e);
    BaseIsSame(flat, cwd, d, m);
    DeeperIsSame(flat, next, names[1..][..k], e, m);
    assert names[..k + 1][0] == names[0] && names[..k + 1][1..] == names[1..][..k];
    assert Walk(flat, cwd, names[..k + 1], m) == Found(link);
  }

  /** Every lookup terminates exactly when no links lead through one another. */
  lemma LookupsEndExactlyWithoutCycles(flat: Flat)
    ensures (forall names: seq<Str> :: Ends(flat, [], names)) <==>
            !exists links: set<Path> :: links != {} && Cyclic(flat, links)
  {
    hide Walk, Walked, Ends, Through, IsLink;
    if exists links: set<Path> :: links != {} && Cyclic(flat, links) {
      var links: set<Path> :| links != {} && Cyclic(flat, links);
      var p :| p in links;
      CycleIsEndless(flat, links, Walked(flat[p].content));
    }
    if names: seq<Str> :| !Ends(flat, [], names) {
      EndlessLeadsThrough(flat, [], names);
      ThroughSome(flat, [], names, Endless(flat));
      EndlessIsCyclic(flat);
    }
  }

  lemma ThroughSome(flat: Flat, cwd: Path, names: seq<Str>, links: set<Path>)
    requires Through(flat, cwd, names, links)
    ensures links != {}
  {
  }

  lemma EndlessIsCyclic(flat: Flat)
    ensures Cyclic(flat, Endless(flat))
  {
    hide Walk, Walked, Ends, Through;
    forall p | p in Endless(flat)
      ensures Through(flat, [], Walked(flat[p].content), Endless(flat))
    {
      EndlessLeadsThrough(flat, [], Walked(flat[p].content));
    }
  }

  lemma CycleIsEndless(flat: Flat, links: set<Path>, names: seq<Str>)
    requires Cyclic(flat, links) && Through(flat, [], names, links)
    ensures !Ends(flat, [], names)
  {
    hide Walk, Through, Cyclic;
    forall depth: nat
      ensures Walk(flat, [], names, depth) == TooDeep
    {
      CycleNeverSettles(flat, links, [], names, depth);
    }
  }

  // ---------- what a lookup finds ----------

  /** A lookup finds nodes of the tree. */
  lemma {:induction false} WalkFindsNodes(flat: Flat, cwd: Path, names: seq<Str>, depth: nat)
    requires [] in flat && cwd in flat
    ensures Walk(flat, cwd, names, depth).Found? ==> Walk(flat, cwd, names, depth).path in flat
    decreases depth, |names|
  {
    hide Walked;
    if names != [] {
      if IsLink(flat, cwd) && depth > 0 {
        WalkFindsNodes(flat, [], Walked(flat[cwd].content), depth - 1);
      }
      var base := Base(flat, cwd, depth);
      if base.Found? && base.path + [names[0]] in flat {
        WalkFindsNodes(flat, base.path + [names[0]], names[1..], depth);
      }
    }
  }

  lemma {:induction false} WalkAppend(flat: Flat, cwd: Path, a: seq<Str>, b: seq<Str>, depth: nat)
    ensures Walk(flat, cwd, a + b, depth) ==
            match Walk(flat, cwd, a, depth) { case Found(q) => Walk(flat, q, b, depth) case other => other }
    decreases |a|
  {
    hide Walked;
    if a == [] {
      assert a + b == b;
    } else {
      assert (a + b)[1..] == a[1..] + b;
      var base := Base(flat, cwd, depth);
      if base.Found? && base.path + [a[0]] in flat {
        WalkAppend(flat, base.path + [a[0]], a[1..], b, depth);
      }
    }
  }

  lemma NoChildrenOfLinks(flat: Flat, p: Path, name: Str)
    requires TreeShaped(flat) && IsLink(flat, p)
    ensures p + [name] !in flat
  {
    assert Parent(p + [name]) == p;
  }

  /** Looking up link/rest is looking up target/rest, unless the target is itself a link: its own
      target is then not followed, and nothing is found. */
  lemma LinkMeansItsTarget(flat: Flat, names: seq<Str>, rest: seq<Str>, depth: nat)
    requires TreeShaped(flat) && Settles(flat, depth) && rest != []
    requires Walk(flat, [], names, depth).Found? && IsLink(flat, Walk(flat, [], names, depth).path)
    ensures var target := Walked(flat[Walk(flat, [], names, depth).path].content);
            var end := Walk(flat, [], target, depth);
            var toLink := end.Found? && IsLink(flat, end.path);
            && (toLink ==> Walk(flat, [], names + rest, depth) == Missing)
            && (Walk(flat, [], names + rest, depth) == Walk(flat, [], target + rest, depth)
                <==> !(toLink && Walk(flat, [], target + rest, depth).Found?))
  {
    hide Walk, Walked, TreeShaped;
    var p := Walk(flat, [], names, depth).path;
    var target := Walked(flat[p].content);
    assert rest[0..] == rest;
    WalkAppend(flat, [], names, rest, depth);
    WalkAppend(flat, [], target, rest, depth);
    assert Walk(flat, [], names + rest, depth) != TooDeep && Walk(flat, [], target + rest, depth) != TooDeep;
    WalkStep(flat, p, rest, 0, depth);
    DeeperIsSame(flat, [], target, depth - 1, depth);
    var end := Walk(flat, [], target, depth);
    if end.Found? {
      WalkStep(flat, end.path, rest, 0, depth);
      if IsLink(flat, end.path) {
        NoChildrenOfLinks(flat, end.path, rest[0]);
      }
    }
  }

  lemma {:induction false} AncestorsPresent(flat: Flat, p: Path, k: nat)
    requires TreeShaped(flat) && p in flat && k <= |p|
    ensures p[..k] in flat
    decreases |p|
  {
    if k == |p| {
      assert p[..k] == p;
    } else {
      AncestorsPresent(flat, Parent(p), k);
      assert Parent(p)[..k] == p[..k];
    }
  }

  /** A path is missing when one of its prefixes is. */
  lemma StepsMissing(flat: Flat, names: Path, i: nat)
    requires TreeShaped(flat) && i < |names| && names[..i] + [names[i]] !in flat
    ensures names !in flat
  {
    assert names[..i + 1] == names[..i] + [names[i]];
    if names in flat {
      AncestorsPresent(flat, names, i + 1);
    }
  }

  lemma {:induction false} LinkFreeFrom(flat: Flat, full: Path, i: nat, depth: nat)
    requires TreeShaped(flat) && i <= |full| && full[..i] in flat
    requires forall k :: i <= k < |full| ==> !IsLink(flat, full[..k])
    ensures Walk(flat, full[..i], full[i..], depth) == Find(flat, full)
    decreases |full| - i
  {
    hide Walked;
    if i == |full| {
      assert full[..i] == full;
    } else {
      assert full[..i] + [full[i]] == full[..i + 1] && full[i..][1..] == full[i + 1..];
      if full in flat {
        AncestorsPresent(flat, full, i + 1);
      }
      if full[..i + 1] in flat {
        LinkFreeFrom(flat, full, i + 1, depth);
      }
    }
  }

  /** Where no directory on the way is a link, following links makes no difference, and both lookups
      agree with the flat map. */
  lemma LinkFreeLookupsAgree(flat: Flat, names: seq<Str>, depth: nat)
    requires TreeShaped(flat)
    requires forall k :: 0 <= k < |names| ==> !IsLink(flat, names[..k])
    ensures Walk(flat, [], names, depth) == Find(flat, names)
  {
    assert names[..0] == [] && names[0..] == names;
    LinkFreeFrom(flat, names, 0, depth);
  }

  /** An absolute target followed by more names walks the target's names, then those. */
  lemma AbsoluteTarget(target: Str, rest: seq<Str>)
    requires IsAbs(target) && rest != [] && AllPlain(rest)
    ensures Walked(target + [SLASH] + Joined(rest)) == Walked(target) + rest
  {
    var whole := target + [SLASH] + Joined(rest);
    PiecesOfConcat(target, Joined(rest));
    PiecesOfJoined(rest);
    PushAllConcat([], Pieces(target), rest, true);
    ResolvedIsPlain(target);
    PushAllPlain(Resolved(target), rest, true);
    AbsWalksResolved(target);
    AbsWalksResolved(whole);
  }

  lemma AbsWalksResolved(p: Str)
    requires IsAbs(p)
    ensures Walked(p) == Resolved(p)
  {
    CleanOfAbs(p);
    ResolvedIsPlain(p);
    WalkedRooted(Resolved(p));
    AbsCleanIsRooted(Clean(p));
  }

  /** A relative target of plain names loses its first name: the code resolves it from the root,
      not from the directory of the link; so it never means the path relative to that directory. */
  lemma RelativeTarget(cs: seq<Str>)
    requires cs != [] && AllPlain(cs) && !([BACKSLASH] <= cs[0])
    ensures Walked(Joined(cs)) == cs[1..]
    ensures forall dir: Path :: Walked(Joined(cs)) != dir + cs
  {
    PiecesOfJoined(cs);
    PushAllPlain([], cs, false);
    assert Plain(cs[0]) && Joined(cs)[0] == cs[0][0];
    assert cs[0][0] in cs[0];
    assert [] + cs == cs;
    assert Clean(Joined(cs)) == Joined(cs);
  }
}
