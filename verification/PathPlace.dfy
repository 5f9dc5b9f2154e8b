/** Where a path leads: a walk over directories, apart from how paths are cleaned. */
module PathPlace {
  import opened PathClean
  import opened PathNormalize

  /** From a directory, given by the names down to it, to the one a component leads to. */
  function Enter(at: seq<string>, c: string): seq<string> {
    if c == "" || c == "." then at
    else if c == ".." then if at == [] then [] else at[..|at| - 1]
    else at + [c]
  }

  function Where(at: seq<string>, cs: seq<string>): seq<string> {
    if cs == [] then at else Enter(Where(at, cs[..|cs| - 1]), cs[|cs| - 1])
  }

  lemma WhereSnoc(at: seq<string>, cs: seq<string>, c: string)
    ensures Where(at, cs + [c]) == Enter(Where(at, cs), c)
  {
    assert (cs + [c])[..|cs|] == cs;
  }

  lemma {:induction false} WhereConcat(at: seq<string>, a: seq<string>, b: seq<string>)
    ensures Where(at, a + b) == Where(Where(at, a), b)
    decreases |b|
  {
    if b == [] {
      assert a + b == a;
    } else {
      var front, c := b[..|b| - 1], b[|b| - 1];
      WhereConcat(at, a, front);
      assert a + b == (a + front) + [c];
      WhereSnoc(at, a + front, c);
    }
  }

  // ----- paths that only go down

  ghost predicate GoesDown(c: string) {
    c != "" && c != "." && c != ".."
  }

  lemma {:induction false} WhereLength(at: seq<string>, cs: seq<string>)
    ensures |Where(at, cs)| <= |at| + |cs|
    ensures |Where(at, cs)| == |at| + |cs| ==> forall k :: 0 <= k < |cs| ==> GoesDown(cs[k])
    decreases |cs|
  {
    if cs != [] {
      WhereLength(at, cs[..|cs| - 1]);
      assert forall k :: 0 <= k < |cs| - 1 ==> cs[k] == cs[..|cs| - 1][k];
    }
  }

  lemma {:induction false} WhereDown(at: seq<string>, cs: seq<string>)
    requires forall k :: 0 <= k < |cs| ==> GoesDown(cs[k])
    ensures Where(at, cs) == at + cs
    decreases |cs|
  {
    if cs != [] {
      var front := cs[..|cs| - 1];
      WhereDown(at, front);
      assert cs == front + [cs[|cs| - 1]];
      assert at + cs == at + front + [cs[|cs| - 1]];
    }
  }

  /** A walk adds all its components to the place it starts from exactly when each of them goes down. */
  lemma OnlyDown(at: seq<string>, cs: seq<string>)
    ensures Where(at, cs) == at + cs <==> forall k :: 0 <= k < |cs| ==> GoesDown(cs[k])
  {
    WhereLength(at, cs);
    if forall k :: 0 <= k < |cs| ==> GoesDown(cs[k]) {
      WhereDown(at, cs);
    }
  }

  // ----- cleaning keeps the place

  /** One step of the stack is one step of the walk. */
  lemma StepWalks(rooted: bool, at: seq<string>, st: seq<string>, c: string)
    requires Stack(rooted, st) && (rooted ==> at == [])
    ensures Where(at, Step(rooted, st, c)) == Enter(Where(at, st), c)
  {
    if c == DOTDOT && st != [] && st[|st| - 1] != DOTDOT {
      assert Proper(st[|st| - 1]);
    } else if c == DOTDOT && rooted {
      assert st == [];
    } else if c != "" && c != DOT {
      WhereSnoc(at, st, c);
    }
  }

  lemma {:induction false} FoldWalks(rooted: bool, at: seq<string>, cs: seq<string>)
    requires (rooted ==> at == []) && forall k :: 0 <= k < |cs| ==> NoSlash(cs[k])
    ensures Stack(rooted, Fold(rooted, [], cs)) && Where(at, Fold(rooted, [], cs)) == Where(at, cs)
    decreases |cs|
  {
    hide Step, Stack;
    if cs == [] {
      NoStack(rooted);
    } else {
      var front, c := cs[..|cs| - 1], cs[|cs| - 1];
      assert cs == front + [c];
      FoldWalks(rooted, at, front);
      FoldSnoc(rooted, [], front, c);
      StepKeeps(rooted, Fold(rooted, [], front), c);
      StepWalks(rooted, at, Fold(rooted, [], front), c);
    }
  }

  lemma NoStack(rooted: bool)
    ensures Stack(rooted, [])
  {
  }

  /** What a path leads to is what its kept components lead to, from anywhere; from the root for a rooted path. */
  lemma KeptPlace(path: string, at: seq<string>)
    requires Rooted(path) ==> at == []
    ensures Where(at, Kept(path)) == Where(at, Split(path, 0))
  {
    forall k | 0 <= k < |Split(path, 0)| ensures NoSlash(Split(path, 0)[k]) {
      SplitNoSlash(path, 0, k);
    }
    FoldWalks(Rooted(path), at, Split(path, 0));
  }

  /** Cleaning a path does not change where it leads. */
  lemma CleanedPlace(path: string, at: seq<string>)
    requires Rooted(path) ==> at == []
    ensures Rooted(Cleaned(path)) == Rooted(path)
    ensures Where(at, Split(Cleaned(path), 0)) == Where(at, Split(path, 0))
  {
    hide Split, Fold, Where;
    KeptPlace(path, at);
    KeptCleaned(path);
    KeptPlace(Cleaned(path), at);
  }

  lemma KeptCleaned(path: string)
    ensures Rooted(Cleaned(path)) == Rooted(path) && Kept(Cleaned(path)) == Kept(path)
  {
    hide Split, Fold, Join;
    KeptShape(path);
    var rooted, st := Rooted(path), Kept(path);
    if rooted || st != [] {
      KeptOfRendered(rooted, st, false);
      assert Render(rooted, st) + "" == Render(rooted, st);
      RenderedSome(rooted, st);
    } else {
      NothingJoined();
      DotCleaned();
    }
  }

  lemma RenderedSome(rooted: bool, st: seq<string>)
    requires Stack(rooted, st) && (rooted || st != [])
    ensures Render(rooted, st) != ""
  {
    if !rooted {
      JoinStart(st);
    }
  }

  /** Normalizing a path does not change where it leads from the root. */
  lemma NormalizedPlace(path: string)
    ensures Where([], Split(Normalized(path), 0)) == Where([], Split(path, 0))
  {
    hide Split, Fold;
    KeptPlace(path, []);
    var st := Kept(path);
    if st == [] {
      SplitOne("");
      WhereSnoc([], [], "");
    } else {
      NormalizedComponents(path);
      var tail := if EndsInSlash(path) then [""] else [];
      WhereSnoc([], [], "");
      WhereConcat([], [""], st);
      WhereConcat([], [""] + st, tail);
      WhereSnoc(Where([], st), [], "");
      assert [] + [""] == [""];
    }
  }
}
