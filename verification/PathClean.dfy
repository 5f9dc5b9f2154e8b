/** Lexical cleaning of request paths. */
module PathClean {
  const DOT: string := "."
  const DOTDOT: string := ".."

  // ----- components

  /** The index of the first slash at or after `i`, or the end. */
  function SegmentEnd(s: string, i: nat): (j: nat)
    requires i <= |s|
    ensures i <= j <= |s| && (j < |s| ==> s[j] == '/') && forall k :: i <= k < j ==> s[k] != '/'
    decreases |s| - i
  {
    if i == |s| || s[i] == '/' then i else SegmentEnd(s, i + 1)
  }

  /** The components between slashes, from `i` on; always at least one. */
  function Split(s: string, i: nat): (cs: seq<string>)
    requires i <= |s|
    ensures |cs| >= 1
    decreases |s| - i
  {
    var j := SegmentEnd(s, i);
    if j == |s| then [s[i..]] else [s[i..j]] + Split(s, j + 1)
  }

  function Join(cs: seq<string>): string {
    if cs == [] then "" else if |cs| == 1 then cs[0] else Join(cs[..|cs| - 1]) + "/" + cs[|cs| - 1]
  }

  // ----- the stack of kept components

  /** One component on the stack: nothing for empty and `.`, back one for `..` where that is possible. */
  function Step(rooted: bool, stack: seq<string>, c: string): seq<string> {
    if c == "" || c == DOT then stack
    else if c == DOTDOT then
      if stack != [] && stack[|stack| - 1] != DOTDOT then stack[..|stack| - 1]
      else if rooted then stack
      else stack + [DOTDOT]
    else stack + [c]
  }

  function Fold(rooted: bool, stack: seq<string>, cs: seq<string>): seq<string>
    decreases cs
  {
    if cs == [] then stack else Fold(rooted, Step(rooted, stack, cs[0]), cs[1..])
  }

  function Rooted(path: string): bool {
    path != "" && path[0] == '/'
  }

  function Render(rooted: bool, stack: seq<string>): string {
    (if rooted then "/" else "") + Join(stack)
  }

  /** The kept components of a path. */
  function Kept(path: string): seq<string> {
    Fold(Rooted(path), [], Split(path, 0))
  }

  /** The meaning of `path_clean`. */
  function Cleaned(path: string): string {
    var out := Render(Rooted(path), Kept(path));
    if out == "" then DOT else out
  }

  ghost predicate NoSlash(c: string) {
    forall i :: 0 <= i < |c| ==> c[i] != '/'
  }

  /** A component that stays: not empty, no slash, not `.`. */
  ghost predicate Proper(c: string) {
    c != "" && c != DOT && NoSlash(c)
  }

  /** How many leading components are `..`. */
  function Ups(stack: seq<string>): (n: nat)
    ensures n <= |stack|
    ensures forall k :: 0 <= k < n ==> stack[k] == DOTDOT
    ensures n < |stack| ==> stack[n] != DOTDOT
    decreases |stack|
  {
    if stack == [] || stack[0] != DOTDOT then 0 else 1 + Ups(stack[1..])
  }

  /** Stacks that cleaning builds: proper components, `..` only in front and only in relative paths. */
  ghost predicate Stack(rooted: bool, stack: seq<string>) {
    && (forall k :: 0 <= k < |stack| ==> Proper(stack[k]))
    && (rooted ==> Ups(stack) == 0)
    && (forall k :: Ups(stack) <= k < |stack| ==> stack[k] != DOTDOT)
  }

  // ----- joins

  lemma JoinSnoc(cs: seq<string>, c: string)
    ensures Join(cs + [c]) == if cs == [] then c else Join(cs) + "/" + c
  {
    if cs == [] {
      assert cs + [c] == [c];
    } else {
      assert (cs + [c])[..|cs|] == cs;
    }
  }

  lemma {:induction false} UpsSnoc(stack: seq<string>, c: string)
    ensures Ups(stack + [c]) == if Ups(stack) == |stack| && c == DOTDOT then |stack| + 1 else Ups(stack)
    decreases |stack|
  {
    if stack == [] {
      assert stack + [c] == [c];
      assert [c][1..] == [];
    } else {
      assert (stack + [c])[1..] == stack[1..] + [c];
      UpsSnoc(stack[1..], c);
    }
  }

  /** A step keeps the shape of the stack. */
  lemma StepKeeps(rooted: bool, stack: seq<string>, c: string)
    requires Stack(rooted, stack) && NoSlash(c)
    ensures Stack(rooted, Step(rooted, stack, c))
  {
    if c == DOTDOT && stack != [] && stack[|stack| - 1] != DOTDOT {
      var front := stack[..|stack| - 1];
      assert front + [stack[|stack| - 1]] == stack;
      UpsSnoc(front, stack[|stack| - 1]);
    } else {
      UpsSnoc(stack, c);
    }
  }

  lemma {:induction false} SplitNoSlash(s: string, i: nat, k: nat)
    requires i <= |s| && k < |Split(s, i)|
    ensures NoSlash(Split(s, i)[k])
    decreases |s| - i
  {
    var j := SegmentEnd(s, i);
    if j < |s| && k > 0 {
      SplitNoSlash(s, j + 1, k - 1);
    }
  }

  lemma {:induction false} FoldKeeps(rooted: bool, stack: seq<string>, cs: seq<string>)
    requires Stack(rooted, stack) && forall k :: 0 <= k < |cs| ==> NoSlash(cs[k])
    ensures Stack(rooted, Fold(rooted, stack, cs))
    decreases cs
  {
    if cs != [] {
      StepKeeps(rooted, stack, cs[0]);
      FoldKeeps(rooted, Step(rooted, stack, cs[0]), cs[1..]);
    }
  }

  /** The kept components are proper, and `..` stays only in front of a relative path. */
  lemma KeptShape(path: string)
    ensures Stack(Rooted(path), Kept(path))
  {
    forall k | 0 <= k < |Split(path, 0)| ensures NoSlash(Split(path, 0)[k]) {
      SplitNoSlash(path, 0, k);
    }
    FoldKeeps(Rooted(path), [], Split(path, 0));
  }

  // ----- the buffer against the stack

  /** The buffer renders the stack, and `dotdot` is the length of its part that cannot be undone. */
  ghost predicate Represents(rooted: bool, stack: seq<string>, out: string, dotdot: int) {
    Stack(rooted, stack) && out == Render(rooted, stack) && dotdot == |Render(rooted, stack[..Ups(stack)])|
  }

  lemma RenderSnoc(rooted: bool, stack: seq<string>, c: string)
    ensures Render(rooted, stack + [c]) == Render(rooted, stack) + (if stack == [] then "" else "/") + c
  {
    JoinSnoc(stack, c);
  }

  lemma {:induction false} RenderPrefix(rooted: bool, stack: seq<string>, k: nat)
    requires k <= |stack| && forall i :: 0 <= i < |stack| ==> stack[i] != ""
    ensures |Render(rooted, stack[..k])| <= |Render(rooted, stack)|
    ensures k < |stack| ==> |Render(rooted, stack[..k])| < |Render(rooted, stack)|
    decreases |stack|
  {
    if k == |stack| {
      assert stack[..k] == stack;
    } else {
      var front := stack[..|stack| - 1];
      assert front + [stack[|stack| - 1]] == stack && front[..k] == stack[..k];
      RenderSnoc(rooted, front, stack[|stack| - 1]);
      RenderPrefix(rooted, front, k);
    }
  }

  /** There is something to go back over exactly when the last component is not `..`. */
  lemma CanBacktrack(rooted: bool, stack: seq<string>, out: string, dotdot: int)
    requires Represents(rooted, stack, out, dotdot)
    ensures |out| > dotdot <==> stack != [] && stack[|stack| - 1] != DOTDOT
    ensures stack == [] <==> |out| == if rooted then 1 else 0
  {
    RenderPrefix(rooted, stack, Ups(stack));
    RenderPrefix(rooted, stack, 0);
    assert stack[..0] == [];
    if Ups(stack) == |stack| {
      assert stack[..Ups(stack)] == stack;
    }
  }

  /** Without its last component the stack is rendered by a first part of the buffer, before a slash if it is not empty. */
  lemma WithoutLast(rooted: bool, stack: seq<string>, out: string, dotdot: int)
    requires Represents(rooted, stack, out, dotdot) && |out| > dotdot
    ensures stack != []
    ensures var front, t := stack[..|stack| - 1], stack[|stack| - 1];
            var pre := Render(rooted, front);
            && Represents(rooted, front, pre, dotdot) && dotdot <= |pre| && t != "" && NoSlash(t)
            && (front == [] ==> |pre| == dotdot) && out == pre + (if front == [] then "" else "/") + t
  {
    CanBacktrack(rooted, stack, out, dotdot);
    var front, t := stack[..|stack| - 1], stack[|stack| - 1];
    FrontIsStack(rooted, stack);
    assert front + [t] == stack;
    hide Render;
    RenderSnoc(rooted, front, t);
    RenderPrefix(rooted, front, Ups(front));
    if front == [] {
      assert front[..Ups(front)] == front;
    }
  }

  lemma FrontIsStack(rooted: bool, stack: seq<string>)
    requires Stack(rooted, stack) && stack != [] && stack[|stack| - 1] != DOTDOT
    ensures var front := stack[..|stack| - 1];
            Stack(rooted, front) && Ups(front) == Ups(stack) && front[..Ups(front)] == stack[..Ups(stack)]
  {
    var front, t := stack[..|stack| - 1], stack[|stack| - 1];
    assert front + [t] == stack;
    StepKeeps(rooted, stack, DOTDOT) by {
      assert NoSlash(DOTDOT);
    }
    UpsSnoc(front, t);
  }

  /** The scan back to the last slash. */
  method Backtrack(ghost rooted: bool, ghost stack: seq<string>, out: string, dotdot: int) returns (w: nat)
    requires Represents(rooted, stack, out, dotdot) && 0 <= dotdot < |out|
    ensures w <= |out| && stack != [] && Represents(rooted, stack[..|stack| - 1], out[..w], dotdot)
  {
    WithoutLast(rooted, stack, out, dotdot);
    ghost var front, t := stack[..|stack| - 1], stack[|stack| - 1];
    ghost var pre := Render(rooted, front);
    LastPart(pre, if front == [] then "" else "/", t, out);
    w := LastSlash(out, dotdot, |pre|);
    assert out[..w] == pre;
  }

  lemma LastPart(pre: string, sep: string, t: string, out: string)
    requires out == pre + sep + t && (sep == "" || sep == "/") && t != "" && NoSlash(t)
    ensures |pre| < |out| && out[..|pre|] == pre && (sep == "/" ==> out[|pre|] == '/')
    ensures forall k :: |pre| < k < |out| ==> out[k] != '/'
  {
    assert forall k :: |pre| + |sep| <= k < |out| ==> out[k] == t[k - |pre| - |sep|];
  }

  method LastSlash(out: string, dotdot: int, ghost base: nat) returns (w: nat)
    requires 0 <= dotdot <= base < |out| && (base == dotdot || out[base] == '/')
    requires forall k :: base < k < |out| ==> out[k] != '/'
    ensures w == base
  {
    w := |out| - 1;
    while w > dotdot && out[w] != '/'
      invariant base <= w < |out|
    {
      w := w - 1;
    }
  }

  /** A component is copied up to the next slash. */
  method CopyElement(path: string, r: nat, out0: string) returns (out: string, end: nat)
    requires r <= |path|
    ensures end == SegmentEnd(path, r) && out == out0 + path[r..end]
  {
    out, end := out0, r;
    while end < |path| && path[end] != '/'
      invariant r <= end <= |path| && out == out0 + path[r..end]
      invariant SegmentEnd(path, end) == SegmentEnd(path, r)
    {
      out := out + [path[end]];
      end := end + 1;
    }
  }

  /** The components from `r` on are the first one and those after its slash. */
  lemma SplitStep(path: string, r: nat, rooted: bool, stack: seq<string>)
    requires r <= |path|
    ensures var j := SegmentEnd(path, r);
            Fold(rooted, stack, Split(path, r)) == Fold(rooted, Step(rooted, stack, path[r..j]), Split(path, j))
  {
    var j := SegmentEnd(path, r);
    assert SegmentEnd(path, j) == j;
    assert path[j..j] == "";
    var c := path[r..j];
    if j == |path| {
      assert path[r..] == c && path[j..] == "";
      assert [c][1..] == [] && [""][1..] == [];
      assert Split(path, j) == [""];
      assert Fold(rooted, Step(rooted, stack, c), [""]) == Fold(rooted, Step(rooted, stack, c), []);
    } else {
      var later := Split(path, j + 1);
      assert ([c] + later)[1..] == later && ([""] + later)[1..] == later;
      assert Split(path, j) == [""] + later;
    }
  }

  lemma SlashStep(path: string, r: nat, rooted: bool, stack: seq<string>)
    requires r < |path| && path[r] == '/'
    ensures Fold(rooted, stack, Split(path, r)) == Fold(rooted, stack, Split(path, r + 1))
  {
    var later := Split(path, r + 1);
    assert path[r..r] == "" && Split(path, r) == [""] + later;
    assert ([""] + later)[1..] == later;
  }

  lemma FoldLast(path: string, rooted: bool, stack: seq<string>)
    ensures Fold(rooted, stack, Split(path, |path|)) == stack
  {
    assert path[|path|..] == "" && [""][1..] == [];
    assert Fold(rooted, stack, [""]) == Fold(rooted, stack, []);
  }

  lemma Pushed(rooted: bool, stack: seq<string>, c: string, out: string, dotdot: int)
    requires Represents(rooted, stack, out, dotdot) && Proper(c) && (c == DOTDOT ==> !rooted && Ups(stack) == |stack|)
    ensures var more := out + (if stack == [] then "" else "/") + c;
            Represents(rooted, stack + [c], more, if c == DOTDOT then |more| else dotdot)
  {
    UpsSnoc(stack, c);
    RenderSnoc(rooted, stack, c);
    if c == DOTDOT {
      assert (stack + [c])[..|stack| + 1] == stack + [c];
    } else {
      assert (stack + [c])[..Ups(stack)] == stack[..Ups(stack)];
    }
  }

  /** Which of the four kinds of component starts at `r`. */
  lemma ElementAt(path: string, r: nat)
    requires r < |path| && path[r] != '/'
    ensures var j := SegmentEnd(path, r);
            var c := path[r..j];
            && c != ""
            && (c == DOT <==> path[r] == '.' && (r + 1 == |path| || path[r + 1] == '/'))
            && (c == DOT ==> j == r + 1)
            && (c == DOTDOT <==> path[r] == '.' && r + 1 < |path| && path[r + 1] == '.' && (r + 2 == |path| || path[r + 2] == '/'))
            && (c == DOTDOT ==> j == r + 2)
            && NoSlash(c)
  {
    var j := SegmentEnd(path, r);
    var c := path[r..j];
    assert SegmentEnd(path, r) == SegmentEnd(path, r + 1);
    if r + 1 < |path| && path[r + 1] != '/' {
      assert SegmentEnd(path, r + 1) == SegmentEnd(path, r + 2);
      assert c[0] == path[r] && c[1] == path[r + 1];
    } else {
      assert j == r + 1 && c == [path[r]];
    }
  }

  /** `path_clean`: the byte loop computes the fold over the components. */
  method Clean(path: string) returns (out: string)
    ensures out == Cleaned(path)
  {
    hide Represents, Fold, Split, Step, Stack, Ups;
    if path == "" {
      EmptyPath();
      return DOT;
    }
    var n := |path|;
    var rooted := path[0] == '/';
    out := "";
    var r, dotdot := 0, 0;
    ghost var stack: seq<string> := [];
    if rooted {
      SlashStep(path, 0, rooted, []);
      out := "/";
      r, dotdot := 1, 1;
    }
    NothingKept(rooted);
    while r < n
      invariant 0 <= r <= n && Represents(rooted, stack, out, dotdot) && dotdot >= 0
      invariant Fold(rooted, stack, Split(path, r)) == Fold(rooted, [], Split(path, 0))
      decreases n - r
    {
      if path[r] == '/' {
        SlashStep(path, r, rooted, stack);
        r := r + 1;
      } else {
        ElementAt(path, r);
        SplitStep(path, r, rooted, stack);
        ghost var c := path[r..SegmentEnd(path, r)];
        StepBy(rooted, stack, c);
        CanBacktrack(rooted, stack, out, dotdot);
        if path[r] == '.' && (r + 1 == n || path[r + 1] == '/') {
          r := r + 1;
        } else if path[r] == '.' && r + 1 < n && path[r + 1] == '.' && (r + 2 == n || path[r + 2] == '/') {
          r := r + 2;
          if |out| > dotdot {
            var w := Backtrack(rooted, stack, out, dotdot);
            out := out[..w];
            stack := stack[..|stack| - 1];
          } else if !rooted {
            PushUp(rooted, stack, out, dotdot);
            if out != "" {
              out := out + "/";
            }
            out := out + "..";
            dotdot := |out|;
            stack := stack + [DOTDOT];
          }
        } else {
          Pushed(rooted, stack, c, out, dotdot);
          ghost var sep := if stack == [] then "" else "/";
          ghost var more := out + sep + c;
          if (rooted && |out| != 1) || (!rooted && out != "") {
            out := out + "/";
          }
          out, r := CopyElement(path, r, out);
          assert out == more;
          stack := stack + [c];
        }
      }
    }
    FoldLast(path, rooted, stack);
    Rendered(rooted, stack, out, dotdot);
    if out == "" {
      return DOT;
    }
  }

  lemma EmptyPath()
    ensures Cleaned("") == DOT
  {
    assert Split("", 0) == [""] && [""][1..] == [];
    assert Fold(false, [], [""]) == Fold(false, [], []);
  }

  lemma NothingKept(rooted: bool)
    ensures Represents(rooted, [], if rooted then "/" else "", if rooted then 1 else 0)
  {
    var none: seq<string> := [];
    assert none[..Ups(none)] == none;
  }

  lemma StepBy(rooted: bool, stack: seq<string>, c: string)
    requires c != ""
    ensures c == DOT ==> Step(rooted, stack, c) == stack
    ensures c == DOTDOT && stack != [] && stack[|stack| - 1] != DOTDOT ==> Step(rooted, stack, c) == stack[..|stack| - 1]
    ensures c == DOTDOT && !(stack != [] && stack[|stack| - 1] != DOTDOT) ==> Step(rooted, stack, c) == if rooted then stack else stack + [DOTDOT]
    ensures c != DOT && c != DOTDOT ==> Step(rooted, stack, c) == stack + [c]
  {
  }

  lemma PushUp(rooted: bool, stack: seq<string>, out: string, dotdot: int)
    requires Represents(rooted, stack, out, dotdot) && |out| <= dotdot && !rooted
    ensures var more := out + (if stack == [] then "" else "/") + DOTDOT;
            Represents(rooted, stack + [DOTDOT], more, |more|)
    ensures out == "" <==> stack == []
  {
    CanBacktrack(rooted, stack, out, dotdot);
    assert NoSlash(DOTDOT);
    Pushed(rooted, stack, DOTDOT, out, dotdot);
  }

  lemma Rendered(rooted: bool, stack: seq<string>, out: string, dotdot: int)
    requires Represents(rooted, stack, out, dotdot)
    ensures out == Render(rooted, stack)
  {
  }
}
