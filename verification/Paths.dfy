/** Turning a path into an absolute one without "." and ".." components: the
    one-pass scanner of the kernel against resolution on a stack of components. */
module Paths {

  const MAX_PATH_NAME := 255

  // Paths as lists of components.

  /** The pieces between slashes, empty pieces included. */
  function Split(s: string): (r: seq<string>)
    ensures |r| >= 1
    ensures forall i :: 0 <= i < |r| ==> '/' !in r[i]
  {
    if s == [] then [[]]
    else
      var r := Split(s[1..]);
      if s[0] == '/' then [[]] + r else [[s[0]] + r[0]] + r[1..]
  }

  /** Each component with a slash before it. */
  function Render(stack: seq<string>): string {
    if stack == [] then "" else "/" + stack[0] + Render(stack[1..])
  }

  /** Walking through components: "." stays, ".." goes up unless at the top. */
  function Resolve(stack: seq<string>, components: seq<string>): seq<string>
    decreases |components|
  {
    if components == [] then stack else Resolve(Step(stack, components[0]), components[1..])
  }

  function Step(stack: seq<string>, c: string): seq<string> {
    if c == "." then stack
    else if c == ".." then (if stack == [] then [] else stack[..|stack| - 1])
    else stack + [c]
  }

  function Shown(stack: seq<string>): string {
    if stack == [] then "/" else Render(stack)
  }

  /** The components an absolute path leads to. */
  function Target(path: string): seq<string>
    requires path != [] && path[0] == '/'
  {
    Resolve([], Split(path[1..]))
  }

  function Normal(path: string): string
    requires path != [] && path[0] == '/'
  {
    Shown(Target(path))
  }

  // The scanner, one step per character or recognised component.

  /** "/." as a whole component. */
  predicate DotHere(s: string) {
    |s| >= 2 && s[0] == '/' && s[1] == '.' && (|s| == 2 || s[2] == '/')
  }

  /** "/.." as a whole component. */
  predicate DotsHere(s: string) {
    |s| >= 3 && s[0] == '/' && s[1] == '.' && s[2] == '.' && (|s| == 3 || s[3] == '/')
  }

  /** Cutting off the last slash and everything after it. */
  function Pop(out: string): string {
    if out == [] then [] else BackFrom(out, |out| - 1)
  }

  function BackFrom(out: string, j: nat): string
    requires j < |out|
  {
    if j > 0 && out[j] != '/' then BackFrom(out, j - 1) else out[..j]
  }

  function Scan(s: string, out: string): string
    decreases |s|
  {
    if s == [] then out
    else if DotHere(s) then Scan(s[2..], out)
    else if DotsHere(s) then Scan(s[3..], Pop(out))
    else Scan(s[1..], out + [s[0]])
  }

  lemma Regroup(a: string, b: string, c: string)
    ensures a + b + c == a + (b + c)
  {
  }

  lemma Cancel(a: string, b: string, c: string)
    requires a + b == a + c
    ensures b == c
  {
    assert (a + b)[|a|..] == b && (a + c)[|a|..] == c;
  }

  lemma RenderFirst(c: string, more: seq<string>)
    ensures Render([c] + more) == "/" + c + Render(more)
  {
    assert ([c] + more)[1..] == more;
  }

  lemma {:induction false} RenderOfSplit(s: string)
    ensures Render(Split(s)) == "/" + s
  {
    hide Render;
    if s == [] {
      var none: seq<string> := [];
      RenderFirst([], none);
      RenderNone();
      assert [[]] + none == Split(s);
      assert "/" + [] + [] == "/" + s;
    } else {
      RenderOfSplit(s[1..]);
      var r := Split(s[1..]);
      if s[0] == '/' {
        RenderFirst([], r);
        assert "/" + [] + ("/" + s[1..]) == "/" + s;
      } else {
        assert r == [r[0]] + r[1..];
        RenderFirst(r[0], r[1..]);
        RenderFirst([s[0]] + r[0], r[1..]);
        RenderGrows(s, r[0], Render(r[1..]));
      }
    }
  }

  lemma RenderNone()
    ensures Render([]) == []
  {
  }

  lemma RenderGrows(s: string, c: string, more: string)
    requires s != [] && "/" + c + more == "/" + s[1..]
    ensures "/" + ([s[0]] + c) + more == "/" + s
  {
    Regroup("/", c, more);
    Cancel("/", c + more, s[1..]);
    Regroup([s[0]], c, more);
    Regroup("/", [s[0]] + c, more);
    assert [s[0]] + s[1..] == s;
  }

  lemma {:induction false} RenderAppend(a: seq<string>, b: seq<string>)
    ensures Render(a + b) == Render(a) + Render(b)
  {
    if a == [] {
      assert a + b == b;
    } else {
      hide Render;
      assert a == [a[0]] + a[1..] && a + b == [a[0]] + (a[1..] + b);
      RenderAppend(a[1..], b);
      RenderFirst(a[0], a[1..]);
      RenderFirst(a[0], a[1..] + b);
      Regroup("/" + a[0], Render(a[1..]), Render(b));
    }
  }

  lemma RenderLast(front: seq<string>, last: string)
    ensures Render(front + [last]) == Render(front) + ("/" + last)
  {
    RenderAppend(front, [last]);
    RenderFirst(last, []);
    assert [last] + [] == [last];
    RenderNone();
  }

  /** Popping the rendering of a stack removes its last component. */
  lemma PopLast(front: seq<string>, last: string)
    requires '/' !in last
    ensures Pop(Render(front + [last])) == Render(front)
  {
    RenderLast(front, last);
    BackToSlash(Render(front), last, |last|);
  }

  lemma {:induction false} BackToSlash(front: string, last: string, j: nat)
    requires '/' !in last && j <= |last|
    ensures BackFrom(front + ("/" + last), |front| + j) == front
  {
    var out := front + ("/" + last);
    if j == 0 {
      assert out[|front|] == '/' && out[..|front|] == front;
    } else {
      assert out[|front| + j] == last[j - 1];
      BackToSlash(front, last, j - 1);
    }
  }

  /** Characters that are no slash are copied. */
  lemma {:induction false} ScanCopies(c: string, rest: string, out: string)
    requires '/' !in c
    ensures Scan(c + rest, out) == Scan(rest, out + c)
  {
    if c == [] {
      assert c + rest == rest && out + c == out;
    } else {
      var s := c + rest;
      assert s[0] == c[0] && c[0] != '/';
      assert s[1..] == c[1..] + rest;
      ScanCopies(c[1..], rest, out + [c[0]]);
      assert out + [c[0]] + c[1..] == out + c;
    }
  }

  /** One component of the input is one step on the stack. */
  lemma ScanStep(c: string, rest: string, stack: seq<string>)
    requires '/' !in c && (rest == [] || rest[0] == '/')
    requires forall i :: 0 <= i < |stack| ==> '/' !in stack[i]
    ensures Scan("/" + c + rest, Render(stack)) == Scan(rest, Render(Step(stack, c)))
  {
    if c == "." {
      ScanDot(rest, Render(stack));
    } else if c == ".." {
      ScanDots(rest, Render(stack));
      if stack != [] {
        var n := |stack| - 1;
        assert stack == stack[..n] + [stack[n]];
        PopLast(stack[..n], stack[n]);
      }
    } else {
      ScanName(c, rest, Render(stack));
      RenderLast(stack, c);
    }
  }

  lemma ScanDot(rest: string, out: string)
    requires rest == [] || rest[0] == '/'
    ensures Scan("/" + "." + rest, out) == Scan(rest, out)
  {
    var s := "/" + "." + rest;
    assert DotHere(s) && s[2..] == rest;
  }

  lemma ScanDots(rest: string, out: string)
    requires rest == [] || rest[0] == '/'
    ensures Scan("/" + ".." + rest, out) == Scan(rest, Pop(out))
  {
    var s := "/" + ".." + rest;
    assert DotsHere(s) && !DotHere(s) && s[3..] == rest;
  }

  lemma ScanSlash(c: string, rest: string, out: string)
    requires !DotHere("/" + c + rest) && !DotsHere("/" + c + rest)
    ensures Scan("/" + c + rest, out) == Scan(c + rest, out + "/")
  {
    var s := "/" + c + rest;
    assert s[1..] == c + rest;
  }

  lemma ScanName(c: string, rest: string, out: string)
    requires '/' !in c && c != "." && c != ".." && (rest == [] || rest[0] == '/')
    ensures Scan("/" + c + rest, out) == Scan(rest, out + ("/" + c))
  {
    var s := "/" + c + rest;
    NoPattern(c, rest);
    ScanSlash(c, rest, out);
    hide Scan;
    ScanCopies(c, rest, out + "/");
    Regroup(out, "/", c);
  }

  /** The scanner on rendered components is resolution on the stack. */
  lemma {:induction false} ScanResolves(components: seq<string>, stack: seq<string>)
    requires forall i :: 0 <= i < |components| ==> '/' !in components[i]
    requires forall i :: 0 <= i < |stack| ==> '/' !in stack[i]
    ensures Scan(Render(components), Render(stack)) == Render(Resolve(stack, components))
    decreases |components|
  {
    if components != [] {
      var rest := Render(components[1..]);
      ScanStep(components[0], rest, stack);
      ScanResolves(components[1..], Step(stack, components[0]));
    }
  }

  /** The slash before any other component matches no pattern. */
  lemma NoPattern(c: string, rest: string)
    requires '/' !in c && c != "." && c != ".." && (rest == [] || rest[0] == '/')
    ensures !DotHere("/" + c + rest) && !DotsHere("/" + c + rest)
  {
    var s := "/" + c + rest;
    assert forall i :: 0 <= i < |c| ==> s[i + 1] == c[i];
    assert rest != [] ==> s[|c| + 1] == '/';
    assert |c| == 1 ==> c == [c[0]];
    assert |c| == 2 ==> c == [c[0], c[1]];
  }

  /** The scanner normalises every absolute path. */
  lemma ScanIsNormal(path: string)
    requires path != [] && path[0] == '/'
    ensures Scan(path, "") == Render(Target(path))
  {
    RenderOfSplit(path[1..]);
    assert "/" + path[1..] == path;
    ScanResolves(Split(path[1..]), []);
  }

  // What normalising means for paths.

  /** Resolution never leaves "." or ".." behind. */
  predicate Clean(stack: seq<string>) {
    forall i :: 0 <= i < |stack| ==> '/' !in stack[i] && stack[i] != "." && stack[i] != ".."
  }

  lemma {:induction false} ResolveIsClean(stack: seq<string>, components: seq<string>)
    requires Clean(stack) && forall i :: 0 <= i < |components| ==> '/' !in components[i]
    ensures Clean(Resolve(stack, components))
    decreases |components|
  {
    if components != [] {
      ResolveIsClean(Step(stack, components[0]), components[1..]);
    }
  }

  /** Resolving clean components just pushes them. */
  lemma {:induction false} ResolveClean(stack: seq<string>, components: seq<string>)
    requires Clean(components)
    ensures Resolve(stack, components) == stack + components
    decreases |components|
  {
    if components != [] {
      ResolveClean(stack + [components[0]], components[1..]);
      assert stack + [components[0]] + components[1..] == stack + components;
    } else {
      assert stack + components == stack;
    }
  }

  lemma {:induction false} ResolveAppend(stack: seq<string>, a: seq<string>, b: seq<string>)
    ensures Resolve(stack, a + b) == Resolve(Resolve(stack, a), b)
    decreases |a|
  {
    if a == [] {
      assert a + b == b;
    } else {
      assert (a + b)[1..] == a[1..] + b && (a + b)[0] == a[0];
      ResolveAppend(Step(stack, a[0]), a[1..], b);
    }
  }

  lemma {:induction false} SplitPlain(c: string)
    requires '/' !in c
    ensures Split(c) == [c]
  {
    if c != [] {
      SplitPlain(c[1..]);
      assert [c[0]] + c[1..] == c;
    }
  }

  lemma SplitFirst(c: char, t: string)
    ensures Split([c] + t) == if c == '/' then [[]] + Split(t) else [[c] + Split(t)[0]] + Split(t)[1..]
  {
    assert ([c] + t)[1..] == t;
  }

  lemma {:induction false} SplitSlash(a: string, b: string)
    ensures Split(a + "/" + b) == Split(a) + Split(b)
  {
    hide Split;
    if a == [] {
      assert a + "/" + b == ['/'] + b;
      SplitFirst('/', b);
      SplitNone();
    } else {
      assert a + "/" + b == [a[0]] + (a[1..] + "/" + b) && a == [a[0]] + a[1..];
      SplitFirst(a[0], a[1..] + "/" + b);
      SplitFirst(a[0], a[1..]);
      SplitSlash(a[1..], b);
      AppendFirst(a[0], Split(a[1..]), Split(b));
    }
  }

  lemma SplitNone()
    ensures Split([]) == [[]]
  {
  }

  lemma AppendFirst(c: char, r: seq<string>, t: seq<string>)
    requires r != []
    ensures [[c] + (r + t)[0]] + (r + t)[1..] == [[c] + r[0]] + r[1..] + t
    ensures [[]] + (r + t) == [[]] + r + t
  {
  }

  lemma RenderHead(stack: seq<string>)
    requires stack != []
    ensures Render(stack) == "/" + (stack[0] + Render(stack[1..]))
    ensures Render(stack) != [] && Render(stack)[0] == '/' && Render(stack)[1..] == stack[0] + Render(stack[1..])
  {
    Regroup("/", stack[0], Render(stack[1..]));
  }

  lemma {:induction false} SplitOfRest(c: string, more: seq<string>)
    requires '/' !in c && forall i :: 0 <= i < |more| ==> '/' !in more[i]
    ensures Split(c + Render(more)) == [c] + more
    decreases |more|
  {
    hide Split;
    SplitPlain(c);
    if more == [] {
      assert c + Render(more) == c;
    } else {
      RenderHead(more);
      hide Render;
      var rest := more[0] + Render(more[1..]);
      SplitOfRest(more[0], more[1..]);
      Regroup(c, "/", rest);
      SplitSlash(c, rest);
      assert [more[0]] + more[1..] == more;
    }
  }

  /** Splitting a rendered stack gives the stack back. */
  lemma SplitOfRender(stack: seq<string>)
    requires stack != [] && forall i :: 0 <= i < |stack| ==> '/' !in stack[i]
    ensures Render(stack) != [] && Render(stack)[0] == '/'
    ensures Split(Render(stack)[1..]) == stack
  {
    RenderHead(stack);
    hide Render, Split;
    SplitOfRest(stack[0], stack[1..]);
    assert [stack[0]] + stack[1..] == stack;
  }

  /** A normal path leads to the same components as the path it came from. */
  lemma TargetOfShown(stack: seq<string>)
    requires Clean(stack)
    ensures Shown(stack) != [] && Shown(stack)[0] == '/'
    ensures Target(Shown(stack)) == if stack == [] then [[]] else stack
  {
    if stack == [] {
      assert Split(Shown(stack)[1..]) == [[]];
      ResolveClean([], [[]]);
    } else {
      SplitOfRender(stack);
      ResolveClean([], stack);
    }
  }

  /** Normalising twice is normalising once. */
  lemma NormalIsIdempotent(path: string)
    requires path != [] && path[0] == '/'
    ensures Normal(path) != [] && Normal(path)[0] == '/'
    ensures Normal(Normal(path)) == Normal(path)
  {
    var stack := Target(path);
    ResolveIsClean([], Split(path[1..]));
    TargetOfShown(stack);
    var none: seq<string> := [[]];
    assert none[1..] == [];
    assert Render(none) == "/";
  }

  /** The path that a relative path means in a working directory. */
  function Joined(path: string, cwd: string): string
    requires cwd != []
  {
    if cwd != "/" && cwd[|cwd| - 1] != '/' then cwd + "/" + path else cwd + path
  }

  lemma TargetOfJoined(stack: seq<string>, q: string)
    requires Clean(stack) && (stack == [] || stack[|stack| - 1] != [])
    ensures Shown(stack) != [] && Joined(q, Shown(stack)) != [] && Joined(q, Shown(stack))[0] == '/'
    ensures Target(Joined(q, Shown(stack))) == Resolve(stack, Split(q))
  {
    if stack == [] {
      assert Joined(q, "/") == "/" + q && ("/" + q)[1..] == q;
    } else {
      var cwd := Render(stack);
      NoSlashes(stack);
      hide Render, Split, Resolve, Clean;
      SplitOfRender(stack);
      LastOfRender(stack);
      assert Joined(q, cwd) == cwd + "/" + q;
      assert (cwd + "/" + q)[1..] == cwd[1..] + "/" + q;
      SplitSlash(cwd[1..], q);
      ResolveClean([], stack);
      ResolveAppend([], stack, Split(q));
      assert [] + stack == stack;
    }
  }

  lemma TargetOfSlash(p: string, q: string)
    requires p != [] && p[0] == '/'
    ensures Target(p + "/" + q) == Resolve(Target(p), Split(q))
  {
    hide Split, Resolve;
    assert (p + "/" + q)[1..] == p[1..] + "/" + q;
    SplitSlash(p[1..], q);
    ResolveAppend([], Split(p[1..]), Split(q));
  }

  /** Resolving one path and then another relative to it is resolving them joined, as
      long as the first does not lead to an empty component. */
  lemma NormalInTwoSteps(p: string, q: string)
    requires p != [] && p[0] == '/'
    requires Target(p) == [] || Target(p)[|Target(p)| - 1] != []
    ensures Normal(p) != [] && Joined(q, Normal(p)) != [] && Joined(q, Normal(p))[0] == '/'
    ensures Normal(Joined(q, Normal(p))) == Normal(p + "/" + q)
  {
    TargetIsClean(p);
    TargetOfJoined(Target(p), q);
    TargetOfSlash(p, q);
  }

  /** A rendered stack ends in a slash exactly if its last component is empty. */
  lemma LastOfRender(stack: seq<string>)
    requires stack != [] && '/' !in stack[|stack| - 1]
    ensures Render(stack) != []
    ensures Render(stack)[|Render(stack)| - 1] == '/' <==> stack[|stack| - 1] == []
  {
    var n := |stack| - 1;
    var last := stack[n];
    assert stack == stack[..n] + [last];
    RenderLast(stack[..n], last);
    if last != [] {
      assert Render(stack)[|Render(stack)| - 1] == last[|last| - 1];
    }
  }

  /** What a relative path amounts to: so many components up, and then these down. */
  datatype Move = Move(up: nat, down: seq<string>)

  function Relative(components: seq<string>): Move {
    if components == [] then Move(0, [])
    else
      var n := |components| - 1;
      Onto(Relative(components[..n]), components[n])
  }

  function Onto(m: Move, c: string): Move {
    if c == "." then m
    else if c != ".." then Move(m.up, m.down + [c])
    else if m.down == [] then Move(m.up + 1, [])
    else Move(m.up, m.down[..|m.down| - 1])
  }

  /** The stack without its k last components, as far as there are any. */
  function Drop(stack: seq<string>, k: nat): seq<string> {
    if k <= |stack| then stack[..|stack| - k] else []
  }

  /** Resolution goes as far up as the path does, stopping at the root, and then down. */
  lemma {:induction false} ResolveIsMove(stack: seq<string>, components: seq<string>)
    ensures var m := Relative(components); Resolve(stack, components) == Drop(stack, m.up) + m.down
  {
    if components == [] {
      assert stack + [] == stack;
    } else {
      var n := |components| - 1;
      var front, c := components[..n], components[n];
      ResolveIsMove(stack, front);
      assert components == front + [c];
      ResolveAppend(stack, front, [c]);
      StepOnto(stack, Relative(front), c);
      assert Resolve(Resolve(stack, front), [c]) == Step(Resolve(stack, front), c);
    }
  }

  lemma StepOnto(stack: seq<string>, m: Move, c: string)
    ensures var n := Onto(m, c); Step(Drop(stack, m.up) + m.down, c) == Drop(stack, n.up) + n.down
  {
    var s := Drop(stack, m.up);
    if c != "." && c != ".." {
      assert s + m.down + [c] == s + (m.down + [c]);
    } else if c == ".." && m.down == [] {
      assert s + m.down == s && Drop(stack, m.up + 1) + [] == Drop(stack, m.up + 1);
    } else if c == ".." {
      assert (s + m.down)[..|s + m.down| - 1] == s + m.down[..|m.down| - 1];
    }
  }

  /** Two clean stacks are shown alike exactly if they are equal, or one is empty and the
      other holds the empty component alone. */
  lemma ShownAlikeIff(a: seq<string>, b: seq<string>)
    requires Clean(a) && Clean(b)
    ensures Shown(a) == Shown(b) <==> a == b || (a == [] && b == [[]]) || (a == [[]] && b == [])
  {
    TargetOfShown(a);
    TargetOfShown(b);
    var none: seq<string> := [[]];
    assert none[1..] == [] && Render(none) == "/";
  }

  /** In a working directory that ends in a slash a relative path goes on from the
      components before that slash. */
  lemma TargetOfJoinedSlash(front: seq<string>, q: string)
    requires Clean(front)
    ensures var cwd := Shown(front + [[]]);
      cwd != [] && Joined(q, cwd) != [] && Joined(q, cwd)[0] == '/'
      && Target(Joined(q, cwd)) == Resolve(front, Split(q))
  {
    var stack := front + [[]];
    var cwd := Render(stack);
    EmptyIsClean();
    CleanMore(front, []);
    NoSlashes(front);
    hide Render, Split, Resolve, Clean, Joined;
    RendersWithSlash(front, []);
    SlashThenName(Render(front), []);
    EndsInSlash(Render(front), q);
    if front == [] {
      RenderNone();
      assert ("" + "/" + q)[1..] == q;
    } else {
      SplitOfRender(front);
      LastOfRender(front);
      assert (Render(front) + "/" + q)[1..] == Render(front)[1..] + "/" + q;
      SplitSlash(Render(front)[1..], q);
      ResolveClean([], front);
      ResolveAppend([], front, Split(q));
      assert [] + front == front;
    }
  }

  lemma EndsInSlash(front: string, q: string)
    ensures Joined(q, front + "/") == front + "/" + q
  {
    assert (front + "/")[|front + "/"| - 1] == '/';
  }

  /** Resolving in two steps and resolving the joined path agree exactly if the first path
      leads to no empty component at its end, or the second climbs above all that the first
      led to, or, where an empty stack and an empty component look the same, down to that. */
  lemma TwoStepsAgreeIff(p: string, q: string)
    requires p != [] && p[0] == '/'
    ensures Normal(p) != [] && Joined(q, Normal(p)) != [] && Joined(q, Normal(p))[0] == '/'
    ensures var t, m := Target(p), Relative(Split(q));
      Normal(Joined(q, Normal(p))) == Normal(p + "/" + q)
      <==> t == [] || t[|t| - 1] != [] || m.up >= |t| || (m.up == |t| - 1 && m.down == [] && t[0] == [])
  {
    hide Target, Render, Split, Resolve, Clean, Joined, Relative;
    var t, m := Target(p), Relative(Split(q));
    TargetIsClean(p);
    LastPart(t);
    if t == [] || t[|t| - 1] != [] {
      NormalInTwoSteps(p, q);
    } else {
      var front := t[..|t| - 1];
      TargetOfSlash(p, q);
      TargetOfJoinedSlash(front, q);
      ResolveKeepsClean(t, q);
      ResolveKeepsClean(front, q);
      ResolveIsMove(t, Split(q));
      ResolveIsMove(front, Split(q));
      ShownAlikeIff(Resolve(t, Split(q)), Resolve(front, Split(q)));
      LongerByOne(front, m);
    }
  }

  lemma ResolveKeepsClean(stack: seq<string>, q: string)
    requires Clean(stack)
    ensures Clean(Resolve(stack, Split(q)))
  {
    ResolveIsClean(stack, Split(q));
  }

  lemma LongerByOne(front: seq<string>, m: Move)
    ensures var t := front + [[]]; var a, b := Drop(t, m.up) + m.down, Drop(front, m.up) + m.down;
      (a == b || (a == [] && b == [[]]) || (a == [[]] && b == []))
      <==> m.up >= |t| || (m.up == |t| - 1 && m.down == [] && t[0] == [])
  {
    var t := front + [[]];
    var a, b := Drop(t, m.up) + m.down, Drop(front, m.up) + m.down;
    if m.up < |t| {
      assert |a| == |b| + 1;
      if m.up == |front| && m.down == [] {
        assert a == [t[0]] && b == [];
      }
    }
  }

  /** After a trailing slash a plain name differs, and a path that climbs to the root does not. */
  lemma TwoStepsExamples()
    ensures Normal(Joined("b", Normal("/a/"))) != Normal("/a/" + "/" + "b")
    ensures Normal(Joined("../../x", Normal("/a/"))) == Normal("/a/" + "/" + "../../x") == "/x"
  {
    hide Relative, Target, Joined, Split, Resolve, Shown, Drop;
    ExampleTarget();
    ExampleMoves();
    TwoStepsAgreeIff("/a/", "b");
    TwoStepsAgreeIff("/a/", "../../x");
    TargetOfSlash("/a/", "../../x");
    ResolveIsMove(["a", ""], Split("../../x"));
    ExampleShown();
  }

  lemma ExampleTarget()
    ensures Target("/a/") == ["a", ""]
  {
    assert "/a/"[1..] == "a" + "/" + "";
    SplitSlash("a", "");
    SplitPlain("a");
    SplitPlain("");
    assert Split("/a/"[1..]) == ["a", ""];
    var clean := ["a", ""];
    assert clean[0] == "a" && clean[1] == "" && "a" != "." && |"a"| != |".."|;
    ResolveClean([], clean);
    assert [] + clean == clean;
  }

  lemma ExampleMoves()
    ensures Relative(Split("b")) == Move(0, ["b"])
    ensures Relative(Split("../../x")) == Move(2, ["x"])
  {
    SplitPlain("b");
    assert Relative(["b"]) == Onto(Relative(["b"][..0]), "b");
    assert "../../x" == ".." + "/" + (".." + "/" + "x");
    SplitSlash("..", ".." + "/" + "x");
    SplitSlash("..", "x");
    SplitPlain("..");
    SplitPlain("x");
    var c := ["..", "..", "x"];
    assert Split("../../x") == c;
    assert c[..2] == ["..", ".."] && c[..2][..1] == [".."] && c[..2][..1][..0] == [];
    assert Relative(c[..2][..1]) == Move(1, []);
    assert Relative(c[..2]) == Move(2, []);
  }

  lemma ExampleShown()
    ensures Shown(Drop(["a", ""], 2) + ["x"]) == "/x"
  {
    assert Drop(["a", ""], 2) + ["x"] == ["x"];
    assert ["x"][1..] == [];
  }

  lemma TargetIsClean(p: string)
    requires p != [] && p[0] == '/'
    ensures Clean(Target(p))
  {
    ResolveIsClean([], Split(p[1..]));
  }

  lemma LastPart(stack: seq<string>)
    requires Clean(stack)
    ensures stack != [] ==> stack == stack[..|stack| - 1] + [stack[|stack| - 1]] && Clean(stack[..|stack| - 1])
  {
  }

  lemma NoSlashes(stack: seq<string>)
    requires Clean(stack)
    ensures forall i :: 0 <= i < |stack| ==> '/' !in stack[i]
  {
  }

  lemma EmptyIsClean()
    ensures Clean([[]])
  {
  }

  lemma CleanMore(front: seq<string>, c: string)
    requires Clean(front) && Clean([c])
    ensures Clean(front + [c])
  {
    assert [c][0] == c;
  }

  lemma RendersWithSlash(front: seq<string>, c: string)
    ensures Render(front + [[]]) + c == Render(front + [c])
    ensures Render(front + [c]) == Render(front) + ("/" + c)
    ensures Render(front + [[]] + [c]) == Render(front) + "/" + ("/" + c)
  {
    hide Render;
    RenderLast(front, []);
    RenderLast(front, c);
    RenderLast(front + [[]], c);
    SlashThenName(Render(front), c);
  }

  lemma SlashThenName(front: string, c: string)
    ensures front + ("/" + []) + c == front + ("/" + c)
    ensures front + ("/" + []) == front + "/"
  {
  }

  // The function as it runs, on character buffers.

  predicate IsAbsolute(path: string) {
    path != [] && path[0] == '/'
  }

  /** Where the buffer ends after its last slash and what follows it are dropped. */
  method StepBack(buffer: array<char>, end: nat) returns (idx: nat)
    requires end <= buffer.Length
    ensures idx <= end && buffer[..idx] == Pop(buffer[..end])
  {
    idx := end;
    if idx > 0 {
      idx := idx - 1;
      ghost var out := buffer[..end];
      while idx > 0 && buffer[idx] != '/'
        invariant idx < end && BackFrom(out, idx) == Pop(out)
      {
        idx := idx - 1;
      }
      assert out[..idx] == buffer[..idx];
    }
  }

  /** The absolute path without "." and "..", or the path itself if it is too long. */
  method GetAbsolutePath(path: string, cwd: string) returns (r: string)
    requires cwd != [] && cwd[0] == '/'
    ensures path != [] && path[0] == '/' ==> r == if |path| <= 255 then Normal(path) else path
    ensures path == [] || path[0] != '/' ==>
      var joined := Joined(path, cwd);
      joined != [] && joined[0] == '/' && r == if |cwd| + |path| <= 253 then Normal(joined) else path
  {
    var temp;
    if path == [] || path[0] != '/' {
      if |cwd| + |path| + 2 > MAX_PATH_NAME {
        return path;
      }
      temp := cwd;
      if cwd != "/" && cwd[|cwd| - 1] != '/' {
        temp := temp + "/";
      }
      temp := temp + path;
    } else {
      if |path| > MAX_PATH_NAME {
        return path;
      }
      temp := path;
    }
    assert temp == (if path != [] && path[0] == '/' then path else Joined(path, cwd)) && IsAbsolute(temp);
    r := ScanPath(temp);
  }

  /** Some paths and what they come to. */
  lemma NormalExamples()
    ensures Normal("/a/../b") == "/b" && Normal("/a/./b") == "/a/b"
    ensures Normal("/..") == "/" && Normal("/a//b") == "/a//b"
  {
    hide Split, Resolve, Step, Shown;
    SplitThree("a", "..", "b");
    SplitThree("a", ".", "b");
    SplitThree("a", "", "b");
    SplitPlain("..");
    assert "/a/../b"[1..] == "a" + "/" + (".." + "/" + "b") && "/a/./b"[1..] == "a" + "/" + ("." + "/" + "b");
    assert "/a//b"[1..] == "a" + "/" + ("" + "/" + "b") && "/.."[1..] == "..";
    ResolveThree("a", "..", "b");
    ResolveThree("a", ".", "b");
    ResolveThree("a", "", "b");
    ExampleSteps();
    ShownOne("b");
    ShownMore();
  }

  lemma ExampleSteps()
    ensures Step(Step(Step([], "a"), ".."), "b") == ["b"] && Step(Step(Step([], "a"), "."), "b") == ["a", "b"]
    ensures Step(Step(Step([], "a"), ""), "b") == ["a", "", "b"] && Step([], "..") == [] && Shown([]) == "/"
  {
    hide Step;
    StepPlain([], "a");
    StepPlain(["a"], "");
    StepPlain(["a", ""], "b");
    StepPlain([], "b");
    StepPlain(["a"], "b");
    StepDots(["a"]);
    assert [] + ["a"] == ["a"] && [] + ["b"] == ["b"] && ["a"] + [""] == ["a", ""] && ["a"][..0] == [];
    assert ["a", ""] + ["b"] == ["a", "", "b"] && ["a"] + ["b"] == ["a", "b"];
  }

  lemma StepPlain(stack: seq<string>, c: string)
    requires c == [] || c[0] != '.'
    ensures Step(stack, c) == stack + [c]
  {
    assert "."[0] == '.' && ".."[0] == '.';
  }

  lemma StepDots(stack: seq<string>)
    requires stack != []
    ensures Step(stack, ".") == stack && Step(stack, "..") == stack[..|stack| - 1] && Step([], "..") == []
  {
    assert |"."| == 1 && |".."| == 2;
  }

  lemma SplitThree(a: string, b: string, c: string)
    requires '/' !in a && '/' !in b && '/' !in c
    ensures Split(a + "/" + (b + "/" + c)) == [a, b, c]
  {
    SplitSlash(a, b + "/" + c);
    SplitSlash(b, c);
    SplitPlain(a);
    SplitPlain(b);
    SplitPlain(c);
  }

  lemma ResolveOne(stack: seq<string>, c: string, more: seq<string>)
    ensures Resolve(stack, [c] + more) == Resolve(Step(stack, c), more)
    ensures Resolve(Step(stack, c), []) == Step(stack, c)
  {
    assert ([c] + more)[1..] == more;
  }

  lemma ResolveThree(a: string, b: string, c: string)
    ensures Resolve([], [a, b, c]) == Step(Step(Step([], a), b), c) && Resolve([], [b]) == Step([], b)
  {
    hide Resolve, Step;
    ResolveOne([], a, [b, c]);
    ResolveOne(Step([], a), b, [c]);
    ResolveOne(Step(Step([], a), b), c, []);
    ResolveOne([], b, []);
    assert [a] + [b, c] == [a, b, c] && [b] + [c] == [b, c] && [c] + [] == [c] && [b] + [] == [b];
  }

  lemma ShownOne(c: string)
    ensures Shown([c]) == "/" + c && [c][..0] == []
  {
    RenderFirst(c, []);
    assert [c] + [] == [c] && "/" + c + "" == "/" + c;
  }

  lemma ShownMore()
    ensures Shown(["a", "b"]) == "/a/b" && Shown(["a", "", "b"]) == "/a//b"
  {
    RenderFirst("b", []);
    RenderFirst("a", ["b"]);
    RenderFirst("", ["b"]);
    RenderFirst("a", ["", "b"]);
    assert ["b"] + [] == ["b"] && ["a"] + ["b"] == ["a", "b"] && [""] + ["b"] == ["", "b"];
    assert ["a"] + ["", "b"] == ["a", "", "b"];
  }

  /** The function on literal paths. */
  method GetAbsolutePathExamples() returns (up: string, below: string, top: string)
    ensures up == "/b" && below == "/a/b" && top == "/"
  {
    hide Normal, Joined;
    NormalExamples();
    JoinedExamples();
    up := GetAbsolutePath("/a/../b", "/");
    below := GetAbsolutePath("./b", "/a");
    top := GetAbsolutePath("..", "/");
  }

  lemma JoinedExamples()
    ensures Joined("./b", "/a") == "/a/./b" && Joined("..", "/") == "/.."
  {
    assert |"/a"| != |"/"|;
  }

  method ScanPath(temp: string) returns (r: string)
    requires IsAbsolute(temp) && |temp| <= MAX_PATH_NAME
    ensures r == Normal(temp)
  {
    var absolute := new char[MAX_PATH_NAME + 1];
    var idx, i, len := 0, 0, |temp|;
    assert temp[0..] == temp && absolute[..0] == "";
    while i < len
      invariant 0 <= idx <= i <= len <= MAX_PATH_NAME
      invariant Scan(temp[i..], absolute[..idx]) == Scan(temp, "")
    {
      ghost var s, out := temp[i..], absolute[..idx];
      ScanOnce(s, out);
      hide Scan;
      if i + 2 < len && temp[i] == '/' && temp[i + 1] == '.' && temp[i + 2] == '/' {
        assert DotHere(s) && s[2..] == temp[i + 2..];
        i := i + 2;
      } else if i + 1 < len && temp[i] == '/' && temp[i + 1] == '.' && i + 2 == len {
        assert DotHere(s) && s[2..] == temp[i + 2..];
        i := i + 2;
      } else if i + 3 < len && temp[i] == '/' && temp[i + 1] == '.' && temp[i + 2] == '.' && temp[i + 3] == '/' {
        assert DotsHere(s) && !DotHere(s) && s[3..] == temp[i + 3..];
        idx := StepBack(absolute, idx);
        i := i + 3;
      } else if i + 2 < len && temp[i] == '/' && temp[i + 1] == '.' && temp[i + 2] == '.' && i + 3 == len {
        assert DotsHere(s) && !DotHere(s) && s[3..] == temp[i + 3..];
        idx := StepBack(absolute, idx);
        i := i + 3;
      } else {
        assert !DotHere(s) && !DotsHere(s) && s[1..] == temp[i + 1..];
        if idx < MAX_PATH_NAME {
          absolute[idx] := temp[i];
          assert absolute[..idx + 1] == out + [s[0]];
          idx := idx + 1;
        }
        i := i + 1;
      }
    }
    assert temp[i..] == [];
    ScanIsNormal(temp);
    RenderEmpty(Target(temp));
    r := if idx == 0 then "/" else absolute[..idx];
  }

  lemma RenderEmpty(stack: seq<string>)
    ensures Render(stack) == [] <==> stack == []
  {
  }

  lemma ScanOnce(s: string, out: string)
    ensures s == [] ==> Scan(s, out) == out
    ensures DotHere(s) ==> Scan(s, out) == Scan(s[2..], out)
    ensures DotsHere(s) && !DotHere(s) ==> Scan(s, out) == Scan(s[3..], Pop(out))
    ensures s != [] && !DotHere(s) && !DotsHere(s) ==> Scan(s, out) == Scan(s[1..], out + [s[0]])
  {
  }
}
