/** The `path` package, lexically: pieces between slashes, `Clean`, `Join`, `Dir`, `Split`. */
module Paths {
  import opened GoBytes

  const DOTNAME: Str := [DOT]
  const DOTDOT: Str := [DOT, DOT]

  // ---------- splitting and joining ----------

  /** A byte in front of a text already split: a separator opens a new piece. */
  function Prepend(c: byte, sep: byte, rest: seq<Str>): (ps: seq<Str>)
    requires rest != []
    ensures ps != []
  {
    if c == sep then [[]] + rest else [[c] + rest[0]] + rest[1..]
  }

  /** `strings.Split(s, sep)` for a one-byte separator. */
  function Split(s: Str, sep: byte): (ps: seq<Str>)
    ensures ps != []
  {
    if s == [] then [[]] else Prepend(s[0], sep, Split(s[1..], sep))
  }

  lemma PrependConcat(c: byte, sep: byte, a: seq<Str>, b: seq<Str>)
    requires a != []
    ensures Prepend(c, sep, a + b) == Prepend(c, sep, a) + b
  {
    assert (a + b)[0] == a[0] && (a + b)[1..] == a[1..] + b;
  }

  lemma {:induction false} SplitConcat(a: Str, b: Str, sep: byte)
    ensures Split(a + [sep] + b, sep) == Split(a, sep) + Split(b, sep)
  {
    var s := a + [sep] + b;
    if a == [] {
      assert s == [sep] + b && s[1..] == b;
    } else {
      hide Prepend;
      assert s[1..] == a[1..] + [sep] + b && s[0] == a[0];
      SplitConcat(a[1..], b, sep);
      PrependConcat(a[0], sep, Split(a[1..], sep), Split(b, sep));
    }
  }

  lemma {:induction false} SplitName(s: Str, sep: byte)
    requires sep !in s
    ensures Split(s, sep) == [s]
  {
    if s != [] {
      SplitName(s[1..], sep);
      assert [s[0]] + s[1..] == s;
    }
  }

  /** The pieces of a path between its slashes. */
  function Pieces(s: Str): (ps: seq<Str>)
    ensures ps != []
  {
    Split(s, SLASH)
  }

  /** `strings.Join(ps, "/")`. */
  function Joined(ps: seq<Str>): Str {
    if ps == [] then [] else if |ps| == 1 then ps[0] else ps[0] + [SLASH] + Joined(ps[1..])
  }

  lemma PiecesOfConcat(a: Str, b: Str)
    ensures Pieces(a + [SLASH] + b) == Pieces(a) + Pieces(b)
  {
    SplitConcat(a, b, SLASH);
  }

  lemma PiecesOfName(s: Str)
    requires SLASH !in s
    ensures Pieces(s) == [s]
  {
    SplitName(s, SLASH);
  }

  lemma {:induction false} PiecesOfJoined(ps: seq<Str>)
    requires ps != [] && forall p <- ps :: SLASH !in p
    ensures Pieces(Joined(ps)) == ps
  {
    PiecesOfName(ps[0]);
    if |ps| > 1 {
      PiecesOfConcat(ps[0], Joined(ps[1..]));
      PiecesOfJoined(ps[1..]);
      assert [ps[0]] + ps[1..] == ps;
    }
  }

  lemma {:induction false} PiecesHaveNoSlash(s: Str)
    ensures forall p <- Pieces(s) :: SLASH !in p
  {
    if s != [] {
      PiecesHaveNoSlash(s[1..]);
    }
  }

  lemma {:induction false} JoinedPieces(s: Str)
    ensures Joined(Pieces(s)) == s
  {
    if s != [] {
      JoinedPieces(s[1..]);
      var rest := Pieces(s[1..]);
      if s[0] == SLASH {
        assert ([[]] + rest)[1..] == rest;
        assert s == [] + [SLASH] + s[1..];
      } else {
        var first := [s[0]] + rest[0];
        assert ([first] + rest[1..])[1..] == rest[1..];
        if |rest| > 1 {
          assert s == [s[0]] + (rest[0] + [SLASH] + Joined(rest[1..]));
        } else {
          assert s == [s[0]] + s[1..];
        }
      }
    }
  }

  // ---------- Clean ----------

  /** A component that `Clean` keeps as it is: not empty, not ".", not "..", without slash. */
  predicate Plain(c: Str) {
    c != [] && c != DOTNAME && c != DOTDOT && SLASH !in c
  }

  predicate AllPlain(cs: seq<Str>) {
    forall c <- cs :: Plain(c)
  }

  /** One component arrives on the stack of those kept so far. */
  function Push(kept: seq<Str>, c: Str, rooted: bool): (r: seq<Str>) {
    if c == [] || c == DOTNAME then kept
    else if c != DOTDOT then kept + [c]
    else if kept != [] && kept[|kept| - 1] != DOTDOT then kept[..|kept| - 1]
    else if rooted then kept
    else kept + [c]
  }

  function PushAll(kept: seq<Str>, cs: seq<Str>, rooted: bool): (r: seq<Str>)
    decreases |cs|
  {
    if cs == [] then kept else PushAll(Push(kept, cs[0], rooted), cs[1..], rooted)
  }

  predicate IsAbs(p: Str) {
    p != [] && p[0] == SLASH
  }

  /** The absolute path with these components. */
  function Rooted(cs: seq<Str>): Str {
    [SLASH] + Joined(cs)
  }

  /** The components an absolute path names, counted from the root. */
  function Resolved(p: Str): seq<Str> {
    PushAll([], Pieces(p), true)
  }

  /** `path.Clean`. */
  function Clean(p: Str): (r: Str) {
    if IsAbs(p) then Rooted(Resolved(p))
    else
      var kept := PushAll([], Pieces(p), false);
      if kept == [] then DOTNAME else Joined(kept)
  }

  /** Absolute and clean: no ".", ".." or empty component. */
  predicate AbsClean(p: Str) {
    IsAbs(p) && (p == [SLASH] || AllPlain(Pieces(p[1..])))
  }

  lemma {:induction false} PushAllConcat(kept: seq<Str>, a: seq<Str>, b: seq<Str>, rooted: bool)
    ensures PushAll(kept, a + b, rooted) == PushAll(PushAll(kept, a, rooted), b, rooted)
    decreases |a|
  {
    if a == [] {
      assert a + b == b;
    } else {
      assert (a + b)[1..] == a[1..] + b;
      PushAllConcat(Push(kept, a[0], rooted), a[1..], b, rooted);
    }
  }

  lemma {:induction false} PushAllPlain(kept: seq<Str>, cs: seq<Str>, rooted: bool)
    requires AllPlain(cs)
    ensures PushAll(kept, cs, rooted) == kept + cs
    decreases |cs|
  {
    if cs != [] {
      assert Plain(cs[0]);
      PushAllPlain(kept + [cs[0]], cs[1..], rooted);
    }
  }

  lemma {:induction false} PushAllKeepsPlain(kept: seq<Str>, cs: seq<Str>)
    requires AllPlain(kept) && forall c <- cs :: SLASH !in c
    ensures AllPlain(PushAll(kept, cs, true))
    decreases |cs|
  {
    if cs != [] {
      PushAllKeepsPlain(Push(kept, cs[0], true), cs[1..]);
    }
  }

  lemma ResolvedIsPlain(p: Str)
    ensures AllPlain(Resolved(p))
  {
    PiecesHaveNoSlash(p);
    PushAllKeepsPlain([], Pieces(p));
  }

  lemma PiecesOfRooted(cs: seq<Str>)
    requires AllPlain(cs)
    ensures Pieces(Rooted(cs)) == [[]] + (if cs == [] then [[]] else cs)
    ensures Resolved(Rooted(cs)) == cs
  {
    assert Rooted(cs)[1..] == Joined(cs);
    if cs != [] {
      PiecesOfJoined(cs);
    }
    var ps := if cs == [] then [[]] else cs;
    assert Pieces(Joined(cs)) == ps;
    assert Pieces(Rooted(cs)) == [[]] + ps;
    PushAllConcat([], [[]], ps, true);
    assert PushAll([], [[]], true) == [];
    if cs == [] {
      assert PushAll([], ps, true) == PushAll([], [], true);
    } else {
      PushAllPlain([], cs, true);
    }
  }

  /** A rooted path is absolute and clean exactly when `Clean` leaves it alone. */
  lemma AbsCleanIsRooted(p: Str)
    requires AbsClean(p)
    ensures AllPlain(Resolved(p)) && p == Rooted(Resolved(p)) && Clean(p) == p
  {
    assert p == [SLASH] + p[1..];
    if p == [SLASH] {
      PiecesOfRooted([]);
    } else {
      JoinedPieces(p[1..]);
      PiecesOfRooted(Pieces(p[1..]));
    }
  }

  lemma RootedIsAbsClean(cs: seq<Str>)
    requires AllPlain(cs)
    ensures AbsClean(Rooted(cs))
  {
    assert Rooted(cs)[1..] == Joined(cs);
    if cs != [] {
      PiecesOfJoined(cs);
    }
  }

  lemma CleanOfAbs(p: Str)
    requires IsAbs(p)
    ensures AbsClean(Clean(p)) && Resolved(Clean(p)) == Resolved(p)
  {
    ResolvedIsPlain(p);
    RootedIsAbsClean(Resolved(p));
    PiecesOfRooted(Resolved(p));
  }

  lemma RootedInjective(a: seq<Str>, b: seq<Str>)
    requires AllPlain(a) && AllPlain(b) && Rooted(a) == Rooted(b)
    ensures a == b
  {
    PiecesOfRooted(a);
    PiecesOfRooted(b);
  }

  // ---------- backslashes ----------

  /** `strings.Replace(p, "\\", "/", -1)`. */
  function Slashed(p: Str): (r: Str)
    ensures |r| == |p|
    ensures BACKSLASH !in p ==> r == p
  {
    seq(|p|, i requires 0 <= i < |p| => if p[i] == BACKSLASH then SLASH else p[i])
  }

  lemma {:induction false} JoinedHas(cs: seq<Str>, c: byte)
    requires c != SLASH && forall p <- cs :: c !in p
    ensures c !in Joined(cs)
  {
    if |cs| > 1 {
      JoinedHas(cs[1..], c);
    }
  }

  // ---------- Join, Dir and Split ----------

  /** `path.Join(a, b)`. */
  function JoinPath(a: Str, b: Str): Str {
    if a == [] && b == [] then []
    else if a == [] then Clean(b)
    else if b == [] then Clean(a)
    else Clean(a + [SLASH] + b)
  }

  /** The length of `path.Split`'s directory part: one past the last slash. */
  function DirLength(p: Str): (n: nat)
    ensures n <= |p|
    ensures SLASH !in p[n..]
    ensures n > 0 ==> p[n - 1] == SLASH
  {
    if p == [] then 0
    else if p[|p| - 1] == SLASH then |p|
    else
      var n := DirLength(p[..|p| - 1]);
      assert p[n..] == p[..|p| - 1][n..] + [p[|p| - 1]];
      n
  }

  /** `path.Dir(p)`. */
  function DirOf(p: Str): Str {
    Clean(p[..DirLength(p)])
  }

  lemma SplitAt(dir: Str, name: Str)
    requires SLASH !in name
    ensures DirLength(dir + [SLASH] + name) == |dir| + 1
  {
    var p := dir + [SLASH] + name;
    var n := DirLength(p);
    assert p[|dir|] == SLASH;
    assert p[|dir| + 1..] == name;
    assert SLASH in p[n..] || n > |dir|;
  }

  lemma {:induction false} JoinedSnoc(cs: seq<Str>, c: Str)
    ensures Joined(cs + [c]) == if cs == [] then c else Joined(cs) + [SLASH] + c
  {
    if cs != [] {
      assert (cs + [c])[1..] == cs[1..] + [c];
      JoinedSnoc(cs[1..], c);
      if |cs| > 1 {
        assert Joined(cs + [c]) == cs[0] + [SLASH] + (Joined(cs[1..]) + [SLASH] + c);
      }
    }
  }

  lemma RootedSnoc(dir: seq<Str>, name: Str)
    requires Plain(name)
    ensures Rooted(dir + [name]) == (if dir == [] then [] else Rooted(dir)) + [SLASH] + name
    ensures var j := Joined(dir + [name]); j != [] && j[|j| - 1] != SLASH
  {
    JoinedSnoc(dir, name);
    hide Joined;
    var j := Joined(dir + [name]);
    assert name[|name| - 1] in name && j[|j| - 1] == name[|name| - 1];
  }

  // ---------- clean paths, absolute and relative ----------

  /** The clean path with these components. */
  function Show(rooted: bool, cs: seq<Str>): Str {
    if rooted then Rooted(cs) else if cs == [] then DOTNAME else Joined(cs)
  }

  /** The components that `Clean` leaves of a path. */
  function Comps(p: Str): seq<Str> {
    PushAll([], Pieces(p), IsAbs(p))
  }

  /** Components of a clean path: ".." only at the start of a relative one. */
  predicate Normal(rooted: bool, cs: seq<Str>) {
    forall i :: 0 <= i < |cs| ==> NormalAt(rooted, cs, i)
  }

  predicate NormalAt(rooted: bool, cs: seq<Str>, i: nat)
    requires i < |cs|
  {
    && cs[i] != [] && cs[i] != DOTNAME && SLASH !in cs[i]
    && (cs[i] == DOTDOT ==> !rooted && (i == 0 || cs[i - 1] == DOTDOT))
  }

  lemma NormalSnoc(rooted: bool, cs: seq<Str>, c: Str)
    requires Normal(rooted, cs) && c != [] && c != DOTNAME && SLASH !in c
    requires c == DOTDOT ==> !rooted && (cs == [] || cs[|cs| - 1] == DOTDOT)
    ensures Normal(rooted, cs + [c])
  {
    forall i | 0 <= i < |cs| + 1
      ensures NormalAt(rooted, cs + [c], i)
    {
      assert i < |cs| ==> NormalAt(rooted, cs, i);
    }
  }

  lemma NormalPrefix(rooted: bool, cs: seq<Str>, n: nat)
    requires Normal(rooted, cs) && n <= |cs|
    ensures Normal(rooted, cs[..n])
  {
    forall i | 0 <= i < n
      ensures NormalAt(rooted, cs[..n], i)
    {
      assert NormalAt(rooted, cs, i);
    }
  }

  lemma PushNormal(kept: seq<Str>, c: Str, rooted: bool)
    requires Normal(rooted, kept) && SLASH !in c
    ensures Normal(rooted, Push(kept, c, rooted))
  {
    hide Normal;
    if kept != [] {
      NormalPrefix(rooted, kept, |kept| - 1);
    }
    if Push(kept, c, rooted) == kept + [c] {
      NormalSnoc(rooted, kept, c);
    }
  }

  lemma {:induction false} PushAllKeepsNormal(kept: seq<Str>, cs: seq<Str>, rooted: bool)
    requires Normal(rooted, kept) && forall c <- cs :: SLASH !in c
    ensures Normal(rooted, PushAll(kept, cs, rooted))
    decreases |cs|
  {
    hide Normal, Push;
    if cs != [] {
      PushNormal(kept, cs[0], rooted);
      PushAllKeepsNormal(Push(kept, cs[0], rooted), cs[1..], rooted);
    }
  }

  /** Every path cleans to the clean path with its components. */
  lemma CompsAreNormal(p: Str)
    ensures Normal(IsAbs(p), Comps(p)) && Clean(p) == Show(IsAbs(p), Comps(p))
  {
    hide PushAll, Normal, Joined, Pieces;
    PiecesHaveNoSlash(p);
    NothingNormal(IsAbs(p));
    PushAllKeepsNormal([], Pieces(p), IsAbs(p));
  }

  lemma NothingNormal(rooted: bool)
    ensures Normal(rooted, [])
  {
  }

  /** Components of a clean path stay as they are. */
  lemma {:induction false} PushAllNormal(rooted: bool, cs: seq<Str>)
    requires Normal(rooted, cs)
    ensures PushAll([], cs, rooted) == cs
  {
    if cs != [] {
      var n := |cs| - 1;
      NormalPrefix(rooted, cs, n);
      PushAllNormal(rooted, cs[..n]);
      PushAllConcat([], cs[..n], [cs[n]], rooted);
      assert cs == cs[..n] + [cs[n]] && NormalAt(rooted, cs, n);
      hide PushAll, Normal;
      PushOne(cs[..n], cs[n], rooted);
    }
  }

  lemma PushOne(kept: seq<Str>, c: Str, rooted: bool)
    ensures PushAll(kept, [c], rooted) == Push(kept, c, rooted)
  {
    assert PushAll(Push(kept, c, rooted), [], rooted) == Push(kept, c, rooted);
  }

  lemma {:induction false} NormalPlain(rooted: bool, cs: seq<Str>, at: seq<Str>)
    requires Normal(rooted, cs) && AllPlain(at)
    ensures Normal(rooted, cs + at)
    decreases |at|
  {
    hide Normal;
    if at == [] {
      assert cs + at == cs;
    } else {
      assert Plain(at[0]) && cs + at == cs + [at[0]] + at[1..];
      NormalSnoc(rooted, cs, at[0]);
      NormalPlain(rooted, cs + [at[0]], at[1..]);
    }
  }

  /** A clean path has the components it is shown with. */
  lemma ShownComps(rooted: bool, cs: seq<Str>)
    requires Normal(rooted, cs)
    ensures var p := Show(rooted, cs); p != [] && IsAbs(p) == rooted && Comps(p) == cs && Clean(p) == p
  {
    var p := Show(rooted, cs);
    if cs == [] {
      assert Pieces(DOTNAME) == [DOTNAME] by {
        PiecesOfName(DOTNAME);
      }
      PiecesOfName([]);
      PiecesOfConcat([], []);
      assert [] + [SLASH] + [] == [SLASH];
      PushAllBlank(rooted);
      assert rooted ==> p == [SLASH];
    } else {
      assert NormalAt(rooted, cs, 0);
      NormalHasNoSlash(rooted, cs);
      PiecesOfJoined(cs);
      PushAllNormal(rooted, cs);
      hide Normal, PushAll, Pieces;
      JoinedStarts(cs);
      if rooted {
        assert p == [] + [SLASH] + Joined(cs);
        PiecesOfConcat([], Joined(cs));
        PiecesOfName([]);
        PushAllConcat([], [[]], cs, true);
        PushOne([], [], true);
      }
    }
    CompsAreNormal(p);
  }

  lemma NormalHasNoSlash(rooted: bool, cs: seq<Str>)
    requires Normal(rooted, cs)
    ensures forall c <- cs :: SLASH !in c
  {
    forall i | 0 <= i < |cs|
      ensures SLASH !in cs[i]
    {
      assert NormalAt(rooted, cs, i);
    }
  }

  lemma PushAllBlank(rooted: bool)
    ensures PushAll([], [[], []], rooted) == [] && PushAll([], [DOTNAME], rooted) == []
  {
    PushOne([], [], rooted);
    PushOne([], DOTNAME, rooted);
    var blank: seq<Str> := [[]];
    PushAllConcat([], blank, blank, rooted);
    assert blank + blank == [[], []];
  }

  lemma JoinedStarts(cs: seq<Str>)
    requires cs != [] && cs[0] != []
    ensures Joined(cs) != [] && Joined(cs)[0] == cs[0][0]
  {
  }

  /** Joining a plain name to any path appends a component. */
  lemma JoinShown(p: Str, n: Str)
    requires Plain(n)
    ensures JoinPath(p, n) == Show(IsAbs(p), Comps(p) + [n])
  {
    PiecesOfName(n);
    hide PushAll, Joined, Pieces;
    PushPlain(Comps(p), n, IsAbs(p));
    if p == [] {
      PiecesOfName([]);
      PushOne([], [], false);
      CompsAreNormal(n);
      PushPlain([], n, false);
    } else {
      PiecesOfConcat(p, n);
      PushAllConcat([], Pieces(p), [n], IsAbs(p));
      CompsAreNormal(p + [SLASH] + n);
    }
  }

  lemma PushPlain(kept: seq<Str>, n: Str, rooted: bool)
    requires Plain(n)
    ensures PushAll(kept, [n], rooted) == kept + [n]
  {
    PushOne(kept, n, rooted);
  }

  /** The last component stands after a slash, except right in the current directory. */
  lemma ShowSnoc(rooted: bool, cs: seq<Str>, n: Str)
    ensures Show(rooted, cs + [n]) ==
            (if cs == [] then (if rooted then [SLASH] else []) else Show(rooted, cs) + [SLASH]) + n
  {
    JoinedSnoc(cs, n);
    hide Joined;
    assert [SLASH] + (Joined(cs) + [SLASH] + n) == [SLASH] + Joined(cs) + [SLASH] + n;
  }

  /** A trailing slash does not change what a path names. */
  lemma TrailingSlash(p: Str)
    requires p != []
    ensures Clean(p + [SLASH]) == Clean(p)
  {
    hide PushAll, Joined, Pieces;
    assert p + [SLASH] + [] == p + [SLASH];
    PiecesOfConcat(p, []);
    PiecesOfName([]);
    PushAllConcat([], Pieces(p), [[]], IsAbs(p));
    PushOne(Comps(p), [], IsAbs(p));
    CompsAreNormal(p);
    CompsAreNormal(p + [SLASH]);
  }

  /** `Dir` takes the last component off. */
  lemma DirShown(rooted: bool, cs: seq<Str>, n: Str)
    requires Normal(rooted, cs) && Plain(n)
    ensures DirOf(Show(rooted, cs + [n])) == Show(rooted, cs)
  {
    hide Normal, Joined, Clean, DirLength;
    ShowSnoc(rooted, cs, n);
    ShownComps(rooted, cs);
    var p := Show(rooted, cs);
    if cs == [] && !rooted {
      NameHasNoDir(n);
      assert n[..0] == [] && [] + n == n;
      EmptyIsDot();
    } else {
      var up := if cs == [] then [] else p;
      assert Show(rooted, cs + [n]) == up + [SLASH] + n;
      SplitAt(up, n);
      assert (up + [SLASH] + n)[..|up| + 1] == up + [SLASH];
      if cs == [] {
        RootIsSlash();
      } else {
        TrailingSlash(p);
      }
    }
  }

  lemma NameHasNoDir(n: Str)
    requires SLASH !in n
    ensures DirLength(n) == 0
  {
  }

  lemma RootIsSlash()
    ensures Show(true, []) == [SLASH]
  {
  }

  lemma EmptyIsDot()
    ensures Clean([]) == DOTNAME
  {
    PushOne([], [], false);
  }

  lemma PlainIsNormal(cs: seq<Str>)
    requires AllPlain(cs)
    ensures Normal(true, cs)
  {
    NothingNormal(true);
    NormalPlain(true, [], cs);
    assert [] + cs == cs;
  }

  /** Joining a plain name to a clean absolute path appends a component. */
  lemma JoinAppends(cs: seq<Str>, c: Str)
    requires AllPlain(cs) && Plain(c)
    ensures JoinPath(Rooted(cs), c) == Rooted(cs + [c])
  {
    PlainIsNormal(cs);
    ShownComps(true, cs);
    hide Comps, Normal, JoinPath, Joined;
    JoinShown(Rooted(cs), c);
  }

  lemma DirDropsLast(cs: seq<Str>, c: Str)
    requires AllPlain(cs) && Plain(c)
    ensures DirOf(Rooted(cs + [c])) == Rooted(cs)
  {
    PlainIsNormal(cs);
    hide Normal, DirOf, Joined;
    DirShown(true, cs, c);
  }

  // ---------- what a path means, name by name ----------

  /** The components after one more name: none for an empty one or ".", one less for "..", except at the
      root and above a relative path's start, and one more for any other. */
  lemma CompsStep(p: Str, c: Str)
    requires p != [] && SLASH !in c
    ensures var before, after := Comps(p), Comps(p + [SLASH] + c);
            && (c == [] || c == DOTNAME ==> after == before)
            && (c == DOTDOT && before != [] && before[|before| - 1] != DOTDOT ==> after == before[..|before| - 1])
            && (c == DOTDOT && (before == [] || before[|before| - 1] == DOTDOT) ==>
                  after == if IsAbs(p) then before else before + [DOTDOT])
            && (Plain(c) ==> after == before + [c])
  {
    PiecesOfConcat(p, c);
    PiecesOfName(c);
    PushAllConcat([], Pieces(p), [c], IsAbs(p));
    PushOne(Comps(p), c, IsAbs(p));
    hide PushAll, Pieces;
  }

  /** Going on from a path only depends on its components. */
  lemma CompsThen(p: Str, q: Str, b: Str)
    requires p != [] && q != [] && IsAbs(p) == IsAbs(q) && Comps(p) == Comps(q)
    ensures Comps(p + [SLASH] + b) == Comps(q + [SLASH] + b)
  {
    hide Pieces;
    PiecesOfConcat(p, b);
    PiecesOfConcat(q, b);
    PushAllConcat([], Pieces(p), Pieces(b), IsAbs(p));
    PushAllConcat([], Pieces(q), Pieces(b), IsAbs(p));
  }

  /** "a/c/../b" is "a/b", wherever a is, for a plain name c. */
  lemma ParentCancels(a: Str, c: Str, b: Str)
    requires a != [] && Plain(c)
    ensures Clean(a + [SLASH] + c + [SLASH] + DOTDOT + [SLASH] + b) == Clean(a + [SLASH] + b)
  {
    hide PushAll, Pieces, Joined;
    var down := a + [SLASH] + c;
    var back := down + [SLASH] + DOTDOT;
    CompsStep(a, c);
    CompsStep(down, DOTDOT);
    assert (Comps(a) + [c])[..|Comps(a)|] == Comps(a) && (Comps(a) + [c])[|Comps(a)|] == c;
    CompsThen(back, a, b);
    CompsAreNormal(back + [SLASH] + b);
    CompsAreNormal(a + [SLASH] + b);
  }

  /** ".." from a directory is the directory above, and the root above the root. */
  lemma ParentOf(cs: seq<Str>)
    requires AllPlain(cs)
    ensures Clean(Rooted(cs) + [SLASH] + DOTDOT) == Rooted(if cs == [] then [] else cs[..|cs| - 1])
  {
    hide PushAll, Pieces, Joined, Plain;
    PlainIsNormal(cs);
    ShownComps(true, cs);
    if cs != [] {
      assert Plain(cs[|cs| - 1]);
      NotDotDot(cs[|cs| - 1]);
    }
    CompsStep(Rooted(cs), DOTDOT);
    CompsAreNormal(Rooted(cs) + [SLASH] + DOTDOT);
  }

  lemma NotDotDot(c: Str)
    requires Plain(c)
    ensures c != DOTDOT
  {
  }
}
