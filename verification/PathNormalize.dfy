/** Normalization of request paths, on top of their cleaning. */
module PathNormalize {
  import opened PathClean

  // ----- splitting what was joined

  lemma {:induction false} SegmentEndUnique(s: string, i: nat, j: nat)
    requires i <= j <= |s| && (j < |s| ==> s[j] == '/') && forall k :: i <= k < j ==> s[k] != '/'
    ensures SegmentEnd(s, i) == j
    decreases j - i
  {
    if i < j {
      SegmentEndUnique(s, i + 1, j);
    }
  }

  /** The components from `i` on, when the next slash, if any, is at `j`. */
  lemma SplitAt(s: string, i: nat, j: nat)
    requires i <= j <= |s| && (j < |s| ==> s[j] == '/') && forall k :: i <= k < j ==> s[k] != '/'
    ensures Split(s, i) == if j == |s| then [s[i..]] else [s[i..j]] + Split(s, j + 1)
  {
    SegmentEndUnique(s, i, j);
  }

  /** A component after a slash is one more component. */
  lemma {:induction false} SplitAppend(s: string, c: string, i: nat)
    requires NoSlash(c) && i <= |s|
    ensures Split(s + "/" + c, i) == Split(s, i) + [c]
    decreases |s| - i
  {
    hide Split;
    var t := s + "/" + c;
    var j := SegmentEnd(s, i);
    SplitAt(s, i, j);
    SplitAt(t, i, j);
    assert t[i..j] == s[i..j];
    if j < |s| {
      SplitAppend(s, c, j + 1);
      assert [s[i..j]] + (Split(s, j + 1) + [c]) == [s[i..j]] + Split(s, j + 1) + [c];
    } else {
      assert s[i..j] == s[i..];
      SplitAt(t, |s| + 1, |t|);
      assert t[|s| + 1..] == c;
    }
  }

  lemma {:induction false} SplitShift(pre: string, s: string, i: nat)
    requires i <= |s|
    ensures Split(pre + s, |pre| + i) == Split(s, i)
    decreases |s| - i
  {
    hide Split;
    var t := pre + s;
    var j := SegmentEnd(s, i);
    SplitAt(s, i, j);
    SplitAt(t, |pre| + i, |pre| + j);
    if j < |s| {
      assert t[|pre| + i..|pre| + j] == s[i..j];
      SplitShift(pre, s, j + 1);
      assert |pre| + j + 1 == |pre| + (j + 1);
    } else {
      assert t[|pre| + i..] == s[i..];
    }
  }

  lemma SplitOne(c: string)
    requires NoSlash(c)
    ensures Split(c, 0) == [c]
  {
    SegmentEndUnique(c, 0, |c|);
    assert c[0..] == c;
  }

  /** Splitting undoes joining. */
  lemma {:induction false} SplitJoin(cs: seq<string>)
    requires cs != [] && forall k :: 0 <= k < |cs| ==> NoSlash(cs[k])
    ensures Split(Join(cs), 0) == cs
    decreases |cs|
  {
    hide Split;
    var front, c := cs[..|cs| - 1], cs[|cs| - 1];
    assert front + [c] == cs;
    if front == [] {
      SplitOne(c);
    } else {
      SplitJoin(front);
      SplitAppend(Join(front), c, 0);
    }
  }

  lemma SplitRooted(s: string)
    ensures Split("/" + s, 0) == [""] + Split(s, 0)
  {
    var t := "/" + s;
    SegmentEndUnique(t, 0, 0);
    assert t[0..0] == "";
    SplitShift("/", s, 0);
  }

  // ----- folding what was kept

  lemma {:induction false} FoldSnoc(rooted: bool, stack: seq<string>, cs: seq<string>, c: string)
    ensures Fold(rooted, stack, cs + [c]) == Step(rooted, Fold(rooted, stack, cs), c)
    decreases cs
  {
    hide Step;
    if cs == [] {
      assert cs + [c] == [c] && [c][1..] == [];
      assert Fold(rooted, Step(rooted, stack, c), []) == Step(rooted, stack, c);
    } else {
      assert (cs + [c])[1..] == cs[1..] + [c];
      FoldSnoc(rooted, Step(rooted, stack, cs[0]), cs[1..], c);
    }
  }

  lemma FoldEmpty(rooted: bool, cs: seq<string>)
    ensures Fold(rooted, [], [""] + cs) == Fold(rooted, [], cs)
  {
    assert ([""] + cs)[1..] == cs;
  }

  /** The components of a stack fold to that stack. */
  lemma {:induction false} FoldStack(rooted: bool, cs: seq<string>)
    requires Stack(rooted, cs)
    ensures Fold(rooted, [], cs) == cs
    decreases |cs|
  {
    if cs != [] {
      var front, c := cs[..|cs| - 1], cs[|cs| - 1];
      assert front + [c] == cs;
      UpsSnoc(front, c);
      FoldStack(rooted, front);
      FoldSnoc(rooted, [], front, c);
    }
  }

  lemma StackNoSlash(rooted: bool, cs: seq<string>)
    requires Stack(rooted, cs)
    ensures forall k :: 0 <= k < |cs| ==> NoSlash(cs[k])
  {
  }

  /** The components of a rendered stack are that stack, also with a slash at the end. */
  lemma KeptOfRendered(rooted: bool, st: seq<string>, trail: bool)
    requires Stack(rooted, st) && (rooted || st != []) && (trail ==> st != [])
    ensures var q := Render(rooted, st) + (if trail then "/" else "");
            Rooted(q) == rooted && Kept(q) == st
  {
    hide Fold, Split, Step;
    var s := Join(st) + (if trail then "/" else "");
    var q := Render(rooted, st) + (if trail then "/" else "");
    assert q == (if rooted then "/" else "") + s;
    FoldJoined(rooted, st, trail);
    if rooted {
      SplitRooted(s);
      FoldEmpty(rooted, Split(s, 0));
    } else {
      JoinStart(st);
      assert q == s && s[0] == Join(st)[0];
    }
  }

  /** The components of a joined stack, also with a slash at the end, fold to that stack. */
  lemma FoldJoined(rooted: bool, st: seq<string>, trail: bool)
    requires Stack(rooted, st) && (trail ==> st != [])
    ensures Fold(rooted, [], Split(Join(st) + (if trail then "/" else ""), 0)) == st
  {
    FoldStack(rooted, st);
    StackNoSlash(rooted, st);
    var s := Join(st) + (if trail then "/" else "");
    hide Split, Stack;
    if st == [] {
      assert s == "";
      SplitOne("");
      FoldEmpty(rooted, []);
      assert [""] + [] == [""];
    } else {
      hide Fold, Step, Join;
      SplitJoin(st);
      assert Join(st) + "/" + "" == Join(st) + "/";
      SplitAppend(Join(st), "", 0);
      FoldSnoc(rooted, [], st, "");
      StepEmpty(rooted, st);
      assert s == if trail then Join(st) + "/" else Join(st);
    }
  }

  lemma StepEmpty(rooted: bool, st: seq<string>)
    ensures Step(rooted, st, "") == st
  {
  }

  lemma {:induction false} JoinStart(st: seq<string>)
    requires st != [] && forall k :: 0 <= k < |st| ==> Proper(st[k])
    ensures Join(st) != "" && Join(st)[0] != '/' && Join(st)[|Join(st)| - 1] != '/'
    decreases |st|
  {
    if |st| > 1 {
      JoinStart(st[..|st| - 1]);
    }
  }

  /** Cleaning a cleaned path changes nothing. */
  lemma CleanIdempotent(path: string)
    ensures Cleaned(Cleaned(path)) == Cleaned(path)
  {
    hide Kept, Join;
    KeptShape(path);
    var rooted, st := Rooted(path), Kept(path);
    if !rooted && st == [] {
      NothingJoined();
      DotCleaned();
    } else {
      KeptOfRendered(rooted, st, false);
      assert Render(rooted, st) + "" == Render(rooted, st);
      if st != [] {
        JoinStart(st);
      }
    }
  }

  lemma NothingJoined()
    ensures Join([]) == ""
  {
  }

  lemma DotCleaned()
    ensures Cleaned(DOT) == DOT && Kept(DOT) == []
  {
    SplitOne(DOT);
    assert [DOT][1..] == [];
    assert Fold(false, [], [DOT]) == Fold(false, [], []);
  }

  // ----- normalization

  predicate EndsInSlash(s: string) {
    s != "" && s[|s| - 1] == '/'
  }

  /** `normalize_path`. */
  method NormalizePath(path: string) returns (out: string)
    ensures out == Normalized(path)
  {
    hide Cleaned, Normalized;
    out := Clean(path);
    NormalizedSteps(path);
    if out == DOT {
      out := "/";
    }
    if !EndsInSlash(out) && EndsInSlash(path) {
      out := out + "/";
    }
    if out == "" || out[0] != '/' {
      out := "/" + out;
    }
    if out == "/" {
      out := "";
    }
  }

  /** The normal form: a slash, the kept components, and the slash the path ended in; nothing for the root. */
  function Normalized(path: string): string {
    if Kept(path) == [] then "" else "/" + Join(Kept(path)) + if EndsInSlash(path) then "/" else ""
  }

  /** The steps of `normalize_path` after cleaning to `c`, for a path that ends in a slash or not. */
  function Finished(c: string, slash: bool): string {
    var c0 := if c == DOT then "/" else c;
    var c1 := if !EndsInSlash(c0) && slash then c0 + "/" else c0;
    var c2 := if c1 == "" || c1[0] != '/' then "/" + c1 else c1;
    if c2 == "/" then "" else c2
  }

  lemma FinishedJoin(j: string, rooted: bool, slash: bool)
    requires j != "" && j != DOT && j[0] != '/' && j[|j| - 1] != '/'
    ensures Finished((if rooted then "/" else "") + j, slash) == "/" + j + if slash then "/" else ""
  {
    if rooted {
      FinishedRooted(j, slash);
    } else {
      assert "" + j == j;
      FinishedRelative(j, slash);
    }
  }

  lemma FinishedRooted(j: string, slash: bool)
    requires j != "" && j[|j| - 1] != '/'
    ensures Finished("/" + j, slash) == "/" + j + if slash then "/" else ""
  {
    var c := "/" + j;
    assert c[0] == '/' && c[|c| - 1] == j[|j| - 1];
    assert !EndsInSlash(c) && c != DOT;
    var c1 := c + if slash then "/" else "";
    assert c1[0] == '/' && |c1| > 1;
    assert !slash ==> c1 == c;
  }

  lemma FinishedRelative(j: string, slash: bool)
    requires j != "" && j != DOT && j[0] != '/' && j[|j| - 1] != '/'
    ensures Finished(j, slash) == "/" + j + if slash then "/" else ""
  {
    assert !EndsInSlash(j);
    if slash {
      assert (j + "/")[0] == j[0];
      assert "/" + (j + "/") == "/" + j + "/";
    } else {
      assert "/" + j + "" == "/" + j;
    }
  }

  lemma NormalizedSteps(path: string)
    ensures Normalized(path) == Finished(Cleaned(path), EndsInSlash(path))
  {
    hide Kept, Join;
    KeptShape(path);
    var st := Kept(path);
    if st == [] {
      NothingJoined();
    } else {
      JoinStart(st);
      JoinNotDot(st);
      hide Finished;
      FinishedJoin(Join(st), Rooted(path), EndsInSlash(path));
    }
  }

  lemma JoinNotDot(st: seq<string>)
    requires st != [] && forall k :: 0 <= k < |st| ==> Proper(st[k])
    ensures Join(st) != DOT
  {
    if |st| > 1 {
      JoinStart(st[..|st| - 1]);
    }
  }

  /** The components of a normal form: the kept ones, between an empty one in front and perhaps one at the end. */
  lemma NormalizedComponents(path: string)
    requires Kept(path) != []
    ensures Split(Normalized(path), 0) == [""] + Kept(path) + if EndsInSlash(path) then [""] else []
    ensures Rooted(Normalized(path)) && EndsInSlash(Normalized(path)) == EndsInSlash(path)
  {
    hide Kept, Split;
    KeptShape(path);
    var st := Kept(path);
    StackNoSlash(Rooted(path), st);
    SplitJoin(st);
    JoinStart(st);
    var s := Join(st) + if EndsInSlash(path) then "/" else "";
    assert Normalized(path) == "/" + s;
    SplitRooted(s);
    if EndsInSlash(path) {
      assert Join(st) + "/" + "" == s;
      SplitAppend(Join(st), "", 0);
    } else {
      assert s == Join(st);
    }
  }

  /**
   * A normal form is empty or starts with a slash, has no empty component inside and no `.`; it has no
   * `..` if the path kept none in front, as every rooted path does.
   */
  lemma NormalizedShape(path: string)
    ensures Normalized(path) == "" || Rooted(Normalized(path))
    ensures Rooted(path) ==> Ups(Kept(path)) == 0
    ensures Normalized(path) != "" ==>
      var cs := Split(Normalized(path), 0);
      && cs[0] == "" && (forall k :: 1 <= k < |cs| - 1 ==> Proper(cs[k])) && (cs[|cs| - 1] == "" || Proper(cs[|cs| - 1]))
      && (Ups(Kept(path)) == 0 <==> DOTDOT !in cs)
  {
    hide Kept, Split, Join;
    KeptShape(path);
    var st := Kept(path);
    if st != [] {
      NormalizedComponents(path);
      var cs := Split(Normalized(path), 0);
      assert cs[1..|st| + 1] == st;
      if Ups(st) > 0 {
        assert cs[1] == DOTDOT;
      }
    }
  }

  /** Normalizing twice is normalizing once if and only if the path keeps no `..` in front. */
  lemma NormalizeIdempotent(path: string)
    ensures Normalized(Normalized(path)) == Normalized(path) <==> Ups(Kept(path)) == 0
  {
    hide Kept, Split, Join;
    var st, q := Kept(path), Normalized(path);
    KeptShape(path);
    if st == [] {
      EmptyNormal();
    } else if Ups(st) == 0 {
      NormalizedComponents(path);
      assert Stack(true, st);
      assert q == Render(true, st) + if EndsInSlash(path) then "/" else "";
      KeptOfRendered(true, st, EndsInSlash(path));
    } else {
      NormalizedComponents(path);
      NormalizedShape(path);
      NormalizedShape(q);
    }
  }

  lemma EmptyNormal()
    ensures Normalized("") == ""
  {
    SplitOne("");
    assert Fold(false, [], [""]) == Fold(false, [], []) by {
      assert [""][1..] == [];
    }
  }
}
