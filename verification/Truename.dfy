/** Canonical path names: a drive, a colon and a path from the root with backslashes. */
module Truename {

  datatype Result = Ok(path: string) | NotDir

  predicate IsSlash(c: char) {
    c == '\\' || c == '/'
  }

  /** The component at the front of a path, and what follows it and its slash. */
  function FirstComp(s: string): (c: string)
    ensures |c| <= |s| && c == s[..|c|] && (|c| < |s| ==> IsSlash(s[|c|]))
  {
    if s == "" || IsSlash(s[0]) then "" else [s[0]] + FirstComp(s[1..])
  }

  function AfterComp(s: string): (r: string)
    ensures s != "" ==> |r| < |s|
  {
    var n := |FirstComp(s)|;
    if n < |s| then s[n + 1..] else ""
  }

  /** The components of a path; consecutive slashes count as one. */
  function Comps(s: string): seq<string>
    decreases |s|
  {
    if s == "" then []
    else if FirstComp(s) == "" then Comps(AfterComp(s))
    else [FirstComp(s)] + Comps(AfterComp(s))
  }

  predicate AllDots(c: string) {
    forall i :: 0 <= i < |c| ==> c[i] == '.'
  }

  /** How many dots a dot entry has; zero for any other component. */
  function Dots(c: string): nat {
    if AllDots(c) then |c| else 0
  }

  /** The directories after one component: a name goes down, n dots go up n - 1 times. */
  datatype Stack = Names(names: seq<string>) | Underflow

  function Step(st: Stack, c: string): Stack {
    if st.Underflow? then st
    else if Dots(c) == 0 then Names(st.names + [c])
    else if Dots(c) - 1 <= |st.names| then Names(st.names[..|st.names| - (Dots(c) - 1)])
    else Underflow
  }

  function Fold(st: Stack, comps: seq<string>): Stack
    decreases |comps|
  {
    if comps == [] then st else Fold(Step(st, comps[0]), comps[1..])
  }

  /** n dots as n - 1 double dots. */
  function Doubles(n: nat): (r: seq<string>)
    ensures |r| == n && forall i :: 0 <= i < n ==> r[i] == ".."
  {
    if n == 0 then [] else Doubles(n - 1) + [".."]
  }

  /** What dot entries are expanded to when they are not collapsed. */
  function Expanded(comps: seq<string>): seq<string> {
    if comps == [] then []
    else (if Dots(comps[0]) == 0 then [comps[0]] else Doubles(Dots(comps[0]) - 1)) + Expanded(comps[1..])
  }

  /** The names below the root, each with its backslash. */
  function PathOf(names: seq<string>): (p: string)
    ensures p != "" && p[|p| - 1] == '\\'
  {
    if names == [] then "\\" else PathOf(names[..|names| - 1]) + names[|names| - 1] + "\\"
  }

  /** The trailing backslash goes, except behind a colon. */
  function Trimmed(s: string): string {
    if 2 <= |s| && s[|s| - 1] == '\\' && s[|s| - 2] != ':' then s[..|s| - 1] else s
  }

  function Render(drive: string, names: seq<string>): string {
    Trimmed(drive + ":" + PathOf(names))
  }

  /** The position of the first colon, or the length. */
  function Colon(s: string): (n: nat)
    ensures n <= |s| && (n < |s| ==> s[n] == ':') && ':' !in s[..n]
  {
    if s == "" || s[0] == ':' then 0
    else
      var n := 1 + Colon(s[1..]);
      assert s[..n] == [s[0]] + s[1..][..n - 1];
      n
  }

  function DriveOf(s: string, default: char): string {
    if Colon(s) == |s| then [default] else s[..Colon(s)]
  }

  function RestOf(s: string): string {
    if Colon(s) == |s| then s else s[Colon(s) + 1..]
  }

  predicate Absolute(rest: string) {
    rest != "" && IsSlash(rest[0])
  }

  /** A name as it occurs in a canonical path. */
  predicate Name(c: string) {
    c != "" && forall i :: 0 <= i < |c| ==> !IsSlash(c[i])
  }

  predicate Proper(names: seq<string>) {
    forall i :: 0 <= i < |names| ==> Name(names[i])
  }

  /** Some character of the component is not a dot. */
  ghost predicate NotDotted(c: string) {
    exists i :: 0 <= i < |c| && c[i] != '.'
  }

  ghost predicate NoDots(names: seq<string>) {
    forall i :: 0 <= i < |names| ==> Name(names[i]) && NotDotted(names[i])
  }

  /** The current directories of the drives, as canonical names below the root. */
  type Cwds = string -> seq<string>

  /** Where the names of a path start from. */
  function Origin(s: string, default: char, cwds: Cwds): seq<string> {
    if Absolute(RestOf(s)) then [] else cwds(DriveOf(s, default))
  }

  function NamesIn(s: string): seq<string> {
    Comps(if Absolute(RestOf(s)) then RestOf(s)[1..] else RestOf(s))
  }

  /** The canonical path: with TNDOTS dot entries are collapsed, else expanded to double dots. */
  function Canonical(s: string, default: char, cwds: Cwds, tndots: bool): Result {
    var drive := DriveOf(s, default);
    if tndots then
      match Fold(Names(Origin(s, default, cwds)), NamesIn(s))
      case Names(names) => Ok(Render(drive, names))
      case Underflow => NotDir
    else Ok(Render(drive, Origin(s, default, cwds) + Expanded(NamesIn(s))))
  }

  // ---- Properties of the canonical form ----

  lemma {:induction false} CompsOfName(c: string, rest: string)
    requires Name(c)
    ensures FirstComp(c + "\\" + rest) == c && AfterComp(c + "\\" + rest) == rest
    ensures FirstComp(c) == c && AfterComp(c) == ""
  {
    FirstCompIs(c, "\\" + rest);
    FirstCompIs(c, "");
    assert c + "" == c && c + "\\" + rest == c + ("\\" + rest);
  }

  lemma {:induction false} FirstCompIs(c: string, rest: string)
    requires forall i :: 0 <= i < |c| ==> !IsSlash(c[i])
    requires rest == "" || IsSlash(rest[0])
    ensures FirstComp(c + rest) == c
  {
    if c == "" {
      assert c + rest == rest;
    } else {
      assert (c + rest)[1..] == c[1..] + rest;
      FirstCompIs(c[1..], rest);
    }
  }

  /** All names with their backslashes, from the front. */
  function Joined(names: seq<string>): string {
    if names == [] then "" else names[0] + "\\" + Joined(names[1..])
  }

  lemma {:induction false} PathIsJoined(names: seq<string>)
    ensures PathOf(names) == "\\" + Joined(names)
  {
    if names != [] {
      var n := |names| - 1;
      PathIsJoined(names[..n]);
      JoinedSnoc(names[..n], names[n]);
      assert names == names[..n] + [names[n]];
      Regroup("\\", Joined(names[..n]), names[n], "\\");
    }
  }

  lemma Regroup3(a: seq<string>, b: seq<string>, c: seq<string>)
    ensures a + (b + c) == a + b + c
  {}

  lemma Regroup(a: string, b: string, c: string, d: string)
    ensures (a + b) + c + d == a + (b + c + d)
  {}

  lemma {:induction false} JoinedSnoc(names: seq<string>, c: string)
    ensures Joined(names + [c]) == Joined(names) + c + "\\"
  {
    if names == [] {
      assert [] + [c] == [c] && [c][1..] == [];
    } else {
      assert (names + [c])[1..] == names[1..] + [c];
      JoinedSnoc(names[1..], c);
    }
  }

  lemma {:induction false} CompsOfJoined(names: seq<string>)
    requires Proper(names)
    ensures Comps(Joined(names)) == names
  {
    if names != [] {
      CompsOfName(names[0], Joined(names[1..]));
      CompsOfJoined(names[1..]);
    }
  }

  /** The names with backslashes between them. */
  function Inner(names: seq<string>): string
    requires names != []
  {
    if |names| == 1 then names[0] else names[0] + "\\" + Inner(names[1..])
  }

  lemma {:induction false} InnerIsTrimmed(names: seq<string>)
    requires names != []
    ensures Joined(names) == Inner(names) + "\\"
  {
    if |names| == 1 {
      assert Joined(names[1..]) == "";
    } else {
      InnerIsTrimmed(names[1..]);
    }
  }

  lemma {:induction false} CompsOfInner(names: seq<string>)
    requires Proper(names) && names != []
    ensures Comps(Inner(names)) == names
  {
    if |names| == 1 {
      CompsOfName(names[0], "");
      assert names == [names[0]];
    } else {
      CompsOfName(names[0], Inner(names[1..]));
      CompsOfInner(names[1..]);
    }
  }

  /** A path from the root taken apart. */
  lemma Parts(drive: string, t: string)
    requires ':' !in drive
    ensures var s := drive + ":" + "\\" + t;
      && Colon(s) == |drive| && RestOf(s) == "\\" + t && Absolute(RestOf(s)) && NamesIn(s) == Comps(t)
    ensures forall default :: DriveOf(drive + ":" + "\\" + t, default) == drive
  {
    var s := drive + ":" + "\\" + t;
    assert s[..|drive|] == drive && s[|drive| + 1..] == "\\" + t;
    ColonIs(s, |drive|);
    assert ("\\" + t)[1..] == t;
  }

  /** What is rendered is such a path, with the same components. */
  lemma RenderIs(drive: string, names: seq<string>) returns (t: string)
    requires Proper(names)
    ensures Render(drive, names) == drive + ":" + "\\" + t && Comps(t) == names
  {
    t := Joined(names);
    PathIsJoined(names);
    CompsOfJoined(names);
    var full := drive + ":" + PathOf(names);
    assert full == drive + ":" + "\\" + t;
    if names != [] {
      InnerIsTrimmed(names);
      CompsOfInner(names);
      if Trimmed(full) != full {
        t := Inner(names);
        LastOff(full, drive + ":" + "\\" + t);
      }
    }
  }

  lemma LastOff(s: string, r: string)
    requires s == r + "\\" && Trimmed(s) != s
    ensures Trimmed(s) == r
  {}

  lemma RenderParts(drive: string, names: seq<string>)
    requires ':' !in drive && Proper(names)
    ensures var s := Render(drive, names);
      Colon(s) == |drive| < |s| && Absolute(RestOf(s)) && NamesIn(s) == names
    ensures forall default :: DriveOf(Render(drive, names), default) == drive
  {
    var t := RenderIs(drive, names);
    Parts(drive, t);
  }

  lemma {:induction false} ColonIs(s: string, n: nat)
    requires n < |s| && s[n] == ':' && ':' !in s[..n]
    ensures Colon(s) == n
  {
    if n != 0 {
      assert s[..n] == [s[0]] + s[1..][..n - 1];
      assert s[0] in s[..n];
      ColonIs(s[1..], n - 1);
    }
  }

  /** A component with a character other than a dot is appended as it is; n dots take n - 1 names off, and fail exactly
      when there are fewer. */
  lemma StepInCharacters(names: seq<string>, c: string)
    requires c != ""
    ensures NotDotted(c) ==> Step(Names(names), c) == Names(names + [c])
    ensures (forall i :: 0 <= i < |c| ==> c[i] == '.') ==>
      Step(Names(names), c) == if |c| <= |names| + 1 then Names(names[..|names| + 1 - |c|]) else Underflow
  {}

  lemma {:induction false} FoldNames(st: seq<string>, comps: seq<string>)
    requires NoDots(comps)
    ensures Fold(Names(st), comps) == Names(st + comps)
    decreases |comps|
  {
    if comps == [] {
      assert st + [] == st;
    } else {
      FoldNames(st + [comps[0]], comps[1..]);
      assert st + [comps[0]] + comps[1..] == st + comps;
    }
  }

  lemma {:induction false} CompsAreProper(s: string)
    ensures Proper(Comps(s))
    decreases |s|
  {
    if s != "" {
      CompsAreProper(AfterComp(s));
      FirstCompIsName(s);
    }
  }

  lemma {:induction false} FirstCompIsName(s: string)
    ensures forall i :: 0 <= i < |FirstComp(s)| ==> !IsSlash(FirstComp(s)[i])
  {
    if s != "" && !IsSlash(s[0]) {
      FirstCompIsName(s[1..]);
    }
  }

  /** Collapsing keeps only names that are no dot entries. */
  lemma {:induction false} FoldIsClean(st: Stack, comps: seq<string>)
    requires (st.Names? ==> NoDots(st.names)) && Proper(comps)
    ensures Fold(st, comps).Names? ==> NoDots(Fold(st, comps).names)
    decreases |comps|
  {
    if comps != [] {
      if st.Names? {
        StepInCharacters(st.names, comps[0]);
      }
      FoldIsClean(Step(st, comps[0]), comps[1..]);
    }
  }

  /** A canonical path is left as it is. */
  lemma Idempotent(s: string, default: char, cwds: Cwds)
    requires default != ':' && forall d :: NoDots(cwds(d))
    ensures var p := Canonical(s, default, cwds, true);
      p.Ok? ==> forall cwds', default' :: Canonical(p.path, default', cwds', true) == p
  {
    var comps := NamesIn(s);
    CompsAreProper(if Absolute(RestOf(s)) then RestOf(s)[1..] else RestOf(s));
    FoldIsClean(Names(Origin(s, default, cwds)), comps);
    var st := Fold(Names(Origin(s, default, cwds)), comps);
    if st.Names? {
      DriveHasNoColon(s, default);
      RenderParts(DriveOf(s, default), st.names);
      FoldNames([], st.names);
      assert [] + st.names == st.names;
    }
  }

  lemma DriveHasNoColon(s: string, default: char)
    requires default != ':'
    ensures ':' !in DriveOf(s, default)
  {}

  lemma {:induction false} FoldUnderflow(comps: seq<string>)
    ensures Fold(Underflow, comps).Underflow?
    decreases |comps|
  {
    if comps != [] {
      FoldUnderflow(comps[1..]);
    }
  }

  lemma {:induction false} FoldConcat(st: Stack, a: seq<string>, b: seq<string>)
    ensures Fold(st, a + b) == Fold(Fold(st, a), b)
    decreases |a|
  {
    if a == [] {
      assert a + b == b;
    } else {
      assert (a + b)[1..] == a[1..] + b;
      FoldConcat(Step(st, a[0]), a[1..], b);
    }
  }

  /** n double dots go up n directories, and fail exactly when there are fewer. */
  lemma {:induction false} FoldDoubles(names: seq<string>, n: nat)
    ensures Fold(Names(names), Doubles(n)) == if n <= |names| then Names(names[..|names| - n]) else Underflow
  {
    if n == 0 {
      assert names[..|names|] == names;
    } else {
      FoldDoubles(names, n - 1);
      FoldConcat(Names(names), Doubles(n - 1), [".."]);
      var st := Fold(Names(names), Doubles(n - 1));
      assert Fold(st, [".."]) == Step(st, "..") by {
        assert [".."][1..] == [];
      }
      if n <= |names| {
        assert names[..|names| - (n - 1)][..|names| - n] == names[..|names| - n];
      }
    }
  }

  /** Expanding dot entries first changes nothing to where they lead. */
  lemma {:induction false} FoldExpanded(st: Stack, comps: seq<string>)
    requires Proper(comps)
    ensures Fold(st, Expanded(comps)) == Fold(st, comps)
    decreases |comps|
  {
    if st.Underflow? {
      FoldUnderflow(comps);
      FoldUnderflow(Expanded(comps));
    } else if comps != [] {
      var c := comps[0];
      var e := if Dots(c) == 0 then [c] else Doubles(Dots(c) - 1);
      FoldConcat(st, e, Expanded(comps[1..]));
      if Dots(c) == 0 {
        assert [c][1..] == [];
      } else {
        FoldDoubles(st.names, Dots(c) - 1);
      }
      assert Fold(st, e) == Step(st, c);
      FoldExpanded(Step(st, c), comps[1..]);
    }
  }

  lemma {:induction false} ExpandedIsProper(comps: seq<string>)
    requires Proper(comps)
    ensures Proper(Expanded(comps))
  {
    if comps != [] {
      ExpandedIsProper(comps[1..]);
    }
  }

  /** Expanding the dots first and collapsing then is collapsing directly. */
  lemma ExpandThenCollapse(s: string, default: char, cwds: Cwds, default': char, cwds': Cwds)
    requires default != ':' && forall d :: NoDots(cwds(d))
    ensures var e := Canonical(s, default, cwds, false);
      e.Ok? && Canonical(e.path, default', cwds', true) == Canonical(s, default, cwds, true)
  {
    var drive, origin, comps := DriveOf(s, default), Origin(s, default, cwds), NamesIn(s);
    CompsAreProper(if Absolute(RestOf(s)) then RestOf(s)[1..] else RestOf(s));
    ExpandedIsProper(comps);
    DriveHasNoColon(s, default);
    RenderParts(drive, origin + Expanded(comps));
    FoldConcat(Names([]), origin, Expanded(comps));
    FoldNames([], origin);
    assert [] + origin == origin;
    FoldExpanded(Names(origin), comps);
  }

  /** Behind position `from`, no backslash is followed by dots only up to the next one or the end. */
  ghost predicate NoDotEntry(p: string, from: nat) {
    forall i, j :: from < i < j <= |p| && p[i - 1] == '\\' && (j == |p| || p[j] == '\\') ==> NotDotted(p[i..j])
  }

  lemma {:induction false} PathHasNoDotEntry(names: seq<string>)
    requires NoDots(names)
    ensures NoDotEntry(PathOf(names), 0)
  {
    if names != [] {
      var front, c := PathOf(names[..|names| - 1]), names[|names| - 1];
      var p := front + c + "\\";
      PathHasNoDotEntry(names[..|names| - 1]);
      forall i, j | 0 < i < j <= |p| && p[i - 1] == '\\' && (j == |p| || p[j] == '\\')
        ensures NotDotted(p[i..j])
      {
        EntryHasNonDot(front, c, i, j);
      }
    }
  }

  lemma EntryHasNonDot(front: string, c: string, i: nat, j: nat)
    requires front != "" && front[|front| - 1] == '\\' && NoDotEntry(front, 0) && Name(c) && NotDotted(c)
    requires var p := front + c + "\\"; 0 < i < j <= |p| && p[i - 1] == '\\' && (j == |p| || p[j] == '\\')
    ensures NotDotted((front + c + "\\")[i..j])
  {
    var p := front + c + "\\";
    if j < |front| {
      assert front[i..j] == p[i..j];
    } else if i < |front| {
      assert p[i..j][|front| - 1 - i] == '\\';
    } else if j == |p| {
      assert p[i..j][|p| - 1 - i] == '\\';
    } else {
      assert i == |front| && j == |front| + |c| by {
        assert forall k :: |front| <= k < |front| + |c| ==> p[k] == c[k - |front|];
      }
      assert p[i..j] == c;
    }
  }

  lemma NoDotEntryBehind(head: string, p: string)
    requires NoDotEntry(p, 0) && p != ""
    ensures NoDotEntry(Trimmed(head + p), |head|)
  {
    var s := Trimmed(head + p);
    forall i, j | |head| < i < j <= |s| && s[i - 1] == '\\' && (j == |s| || s[j] == '\\')
      ensures NotDotted(s[i..j])
    {
      var a, b := i - |head|, j - |head|;
      assert s[i - 1] == (head + p)[i - 1] == p[a - 1] && (j < |s| ==> s[j] == p[b]);
      SameSlice(head, p, s, a, b);
    }
  }

  lemma SameSlice(head: string, p: string, s: string, a: nat, b: nat)
    requires a <= b <= |p| && |head| + b <= |s| && s <= head + p
    ensures p[a..b] == s[|head| + a..|head| + b]
  {
    assert s == (head + p)[..|s|];
  }

  /** With the dots collapsed, no component of the result consists of dots only. */
  lemma CanonicalHasNoDotEntry(s: string, default: char, cwds: Cwds)
    requires default != ':' && forall d :: NoDots(cwds(d))
    ensures var p := Canonical(s, default, cwds, true); p.Ok? ==> NoDotEntry(p.path, Colon(p.path))
  {
    var drive, st := DriveOf(s, default), Fold(Names(Origin(s, default, cwds)), NamesIn(s));
    CompsAreProper(if Absolute(RestOf(s)) then RestOf(s)[1..] else RestOf(s));
    FoldIsClean(Names(Origin(s, default, cwds)), NamesIn(s));
    if st.Names? {
      DriveHasNoColon(s, default);
      RenderParts(drive, st.names);
      PathHasNoDotEntry(st.names);
      NoDotEntryBehind(drive + ":", PathOf(st.names));
      var p := Render(drive, st.names);
      forall i, j | |drive| < i < j <= |p| && p[i - 1] == '\\' && (j == |p| || p[j] == '\\')
        ensures NotDotted(p[i..j])
      {
        assert i != |drive| + 1;
      }
    }
  }

  ghost function Dotted(n: nat): (c: string)
    ensures |c| == n && forall i :: 0 <= i < n ==> c[i] == '.'
  {
    seq(n, i => '.')
  }

  /** n dots within a path: collapsed, they take the n - 1 names before them off, or fail when there are fewer; else
      they stand for n - 1 double dots. */
  lemma DotsInPath(drive: string, names: seq<string>, n: nat, after: seq<string>, default: char, cwds: Cwds)
    requires ':' !in drive && NoDots(names) && NoDots(after) && 0 < n
    ensures var s := drive + ":" + PathOf(names + [Dotted(n)] + after);
      && Canonical(s, default, cwds, true) == (if n <= |names| + 1 then Ok(Render(drive, names[..|names| + 1 - n] + after)) else NotDir)
      && Canonical(s, default, cwds, false) == Ok(Render(drive, names + Doubles(n - 1) + after))
  {
    var d := Dotted(n);
    ProperWithDots(names, d, after);
    CanonicalOfPath(drive, names + [d] + after, default, cwds);
    CollapsedDots(names, d, after);
    ExpandedDots(names, d, after);
  }

  lemma ProperWithDots(names: seq<string>, d: string, after: seq<string>)
    requires NoDots(names) && NoDots(after) && d != "" && forall i :: 0 <= i < |d| ==> d[i] == '.'
    ensures Proper(names + [d] + after)
  {}

  lemma CanonicalOfPath(drive: string, comps: seq<string>, default: char, cwds: Cwds)
    requires ':' !in drive && Proper(comps)
    ensures var s := drive + ":" + PathOf(comps); var st := Fold(Names([]), comps);
      && Canonical(s, default, cwds, true) == (if st.Names? then Ok(Render(drive, st.names)) else NotDir)
      && Canonical(s, default, cwds, false) == Ok(Render(drive, Expanded(comps)))
  {
    PathIsJoined(comps);
    CompsOfJoined(comps);
    Parts(drive, Joined(comps));
    assert drive + ":" + PathOf(comps) == drive + ":" + "\\" + Joined(comps);
    assert [] + Expanded(comps) == Expanded(comps);
  }

  lemma CollapsedDots(names: seq<string>, d: string, after: seq<string>)
    requires NoDots(names) && NoDots(after) && d != "" && forall i :: 0 <= i < |d| ==> d[i] == '.'
    ensures Fold(Names([]), names + [d] + after)
         == if |d| <= |names| + 1 then Names(names[..|names| + 1 - |d|] + after) else Underflow
  {
    FoldConcat(Names([]), names + [d], after);
    FoldConcat(Names([]), names, [d]);
    FoldNames([], names);
    assert [] + names == names;
    assert Fold(Names(names), [d]) == Step(Names(names), d) by {
      assert [d][1..] == [];
    }
    StepInCharacters(names, d);
    if |d| <= |names| + 1 {
      FoldNames(names[..|names| + 1 - |d|], after);
    } else {
      FoldUnderflow(after);
    }
  }

  lemma ExpandedDots(names: seq<string>, d: string, after: seq<string>)
    requires NoDots(names) && NoDots(after) && d != "" && forall i :: 0 <= i < |d| ==> d[i] == '.'
    ensures Expanded(names + [d] + after) == names + Doubles(|d| - 1) + after
  {
    ExpandedConcat(names + [d], after);
    ExpandedConcat(names, [d]);
    ExpandedNames(names);
    ExpandedNames(after);
    assert Expanded([d]) == Doubles(|d| - 1) by {
      assert [d][1..] == [];
      assert Doubles(|d| - 1) + [] == Doubles(|d| - 1);
    }
  }

  lemma {:induction false} ExpandedConcat(a: seq<string>, b: seq<string>)
    ensures Expanded(a + b) == Expanded(a) + Expanded(b)
  {
    if a == [] {
      assert a + b == b && [] + Expanded(b) == Expanded(b);
    } else {
      assert (a + b)[1..] == a[1..] + b;
      ExpandedConcat(a[1..], b);
      Regroup3(if Dots(a[0]) == 0 then [a[0]] else Doubles(Dots(a[0]) - 1), Expanded(a[1..]), Expanded(b));
    }
  }

  lemma {:induction false} ExpandedNames(names: seq<string>)
    requires NoDots(names)
    ensures Expanded(names) == names
  {
    if names != [] {
      ExpandedNames(names[1..]);
    }
  }

  ghost predicate Slashes(s: string) {
    forall i :: 0 <= i < |s| ==> s[i] == '\\' || s[i] == '/'
  }

  /** Components are separated by any number of slashes of either kind. */
  lemma CompsInCharacters(c: string, slashes: string, rest: string)
    requires c != "" && '\\' !in c && '/' !in c && slashes != "" && Slashes(slashes)
    ensures Comps(c + slashes + rest) == [c] + Comps(rest)
  {
    Regrouped(c, slashes, rest);
    CompsOfFirst(c, slashes + rest);
    CompsOfSlash(slashes + rest);
    SlashesSkipped(slashes, rest);
  }

  lemma CompsOfOne(c: string)
    requires c != "" && '\\' !in c && '/' !in c
    ensures Comps(c) == [c] && Comps("") == []
  {
    CompsOfName(c, "");
    assert Comps("") == [];
  }

  lemma Regrouped(a: string, b: string, c: string)
    ensures a + b + c == a + (b + c)
  {}

  lemma CompsOfSlash(s: string)
    requires s != "" && IsSlash(s[0])
    ensures Comps(s) == Comps(s[1..])
  {
    assert FirstComp(s) == "" && AfterComp(s) == s[1..];
  }

  lemma CompsOfFirst(c: string, s: string)
    requires Name(c) && s != "" && IsSlash(s[0])
    ensures Comps(c + s) == [c] + Comps(s[1..])
  {
    FirstCompIs(c, s);
    assert (c + s)[|c| + 1..] == s[1..];
  }

  /** Leading slashes do not count. */
  lemma {:induction false} SlashesSkipped(slashes: string, rest: string)
    requires Slashes(slashes)
    ensures Comps(slashes + rest) == Comps(rest)
  {
    if slashes == "" {
      assert slashes + rest == rest;
    } else {
      CompsOfSlash(slashes + rest);
      assert (slashes + rest)[1..] == slashes[1..] + rest;
      SlashesSkipped(slashes[1..], rest);
    }
  }

  /** What precedes the first colon is the drive; behind it a slash means the root, and anything else the current
      directory of the drive, that of the default drive if there is no colon. */
  lemma BeginsInCharacters(drive: string, t: string, default: char, cwds: Cwds)
    requires ':' !in drive
    ensures var s := drive + ":" + t;
      && DriveOf(s, default) == drive && NamesIn(s) == Comps(t)
      && Origin(s, default, cwds) == if t != "" && (t[0] == '\\' || t[0] == '/') then [] else cwds(drive)
    ensures ':' !in t ==> DriveOf(t, default) == [default] && NamesIn(t) == Comps(t)
    ensures ':' !in t ==> Origin(t, default, cwds) == if t != "" && (t[0] == '\\' || t[0] == '/') then [] else cwds([default])
  {
    var s := drive + ":" + t;
    assert s[..|drive|] == drive && s[|drive| + 1..] == t;
    ColonIs(s, |drive|);
    if t != "" && IsSlash(t[0]) {
      CompsOfSlash(t);
    }
    if ':' !in t {
      NoColon(t);
    }
  }

  /** Every name is written behind a backslash; one backslash stands at the end only if a colon is before it. */
  lemma RenderInCharacters(drive: string, names: seq<string>, c: string)
    requires c != ""
    ensures PathOf([]) == "\\" && PathOf(names + [c]) == PathOf(names) + c + "\\" && Render(drive, []) == drive + ":\\"
    ensures Render(drive, names + [c]) == drive + ":" + PathOf(names) + c + if c[|c| - 1] == ':' then "\\" else ""
  {
    PathSnoc(names, c);
    var full := drive + ":" + PathOf(names + [c]);
    Regroup(drive + ":", PathOf(names), c, "\\");
    assert full == drive + ":" + PathOf(names) + c + "\\";
    assert full[|full| - 2] == c[|c| - 1];
    assert drive + ":" + "\\" == drive + ":\\";
  }

  // ---- The rewriting of the path in a buffer ----

  /** What going back over `dots` backslashes leaves of a buffer whose path starts at `root`. */
  function Rewound(aux: string, root: nat, dots: nat): (r: Result)
    requires root < |aux| && 0 < dots
    decreases |aux|
  {
    var d := if aux[|aux| - 1] == '\\' then dots - 1 else dots;
    if d == 0 then Ok(aux) else if |aux| - 1 == root then NotDir else Rewound(aux[..|aux| - 1], root, d)
  }

  lemma {:induction false} RewoundOverName(aux: string, root: nat, dots: nat, c: string)
    requires root < |aux| && 0 < dots && forall i :: 0 <= i < |c| ==> !IsSlash(c[i])
    ensures Rewound(aux + c, root, dots) == Rewound(aux, root, dots)
    decreases |c|
  {
    if c == "" {
      assert aux + c == aux;
    } else {
      var b := c[..|c| - 1];
      assert (aux + c)[..|aux + c| - 1] == aux + b;
      RewoundOverName(aux, root, dots, b);
    }
  }

  /** One name is taken off, down to the backslash before it. */
  lemma RewoundPop(head: string, front: string, c: string, dots: nat)
    requires front != "" && 1 < dots && forall i :: 0 <= i < |c| ==> !IsSlash(c[i])
    ensures Rewound(head + (front + c + "\\"), |head|, dots) == Rewound(head + front, |head|, dots - 1)
  {
    var aux := head + (front + c + "\\");
    assert aux[..|aux| - 1] == (head + front) + c;
    RewoundOverName(head + front, |head|, dots - 1, c);
  }

  /** Rewinding n dots takes off n - 1 names, and fails exactly when there are fewer. */
  lemma {:induction false} RewoundNames(head: string, names: seq<string>, dots: nat)
    requires Proper(names) && 0 < dots
    ensures Rewound(head + PathOf(names), |head|, dots)
      == if dots - 1 <= |names| then Ok(head + PathOf(names[..|names| - (dots - 1)])) else NotDir
    decreases |names|
  {
    if dots == 1 {
      assert names[..|names|] == names;
    } else if names != [] {
      var n := |names| - 1;
      RewoundPop(head, PathOf(names[..n]), names[n], dots);
      RewoundNames(head, names[..n], dots - 1);
      if dots - 1 <= |names| {
        assert names[..n][..n - (dots - 2)] == names[..|names| - (dots - 1)];
      }
    }
  }

  /** The loop that goes back in the buffer. */
  method Rewind(aux0: string, root: nat, dots0: nat) returns (r: Result)
    requires root < |aux0| && 1 < dots0
    ensures r == Rewound(aux0, root, dots0)
  {
    var aux, dots := aux0, dots0;
    while true
      invariant root < |aux| && 0 < dots && Rewound(aux, root, dots) == Rewound(aux0, root, dots0)
      decreases |aux|
    {
      if aux[|aux| - 1] == '\\' {
        dots := dots - 1;
      }
      if dots == 0 {
        return Ok(aux);
      }
      if |aux| - 1 == root {
        return NotDir;
      }
      aux := aux[..|aux| - 1];
    }
  }

  /** The loop that looks for dot entries. */
  method CountDots(c: string) returns (dots: nat)
    requires c != ""
    ensures dots == if NotDotted(c) then 0 else |c|
  {
    dots := 0;
    var i := 0;
    while i < |c|
      invariant 0 <= i <= |c| && dots == i && forall j :: 0 <= j < i ==> c[j] == '.'
    {
      if c[i] == '.' {
        dots := dots + 1;
      } else {
        return 0;
      }
      i := i + 1;
    }
  }

  /** The loop that extracts the next component. */
  method NextComp(s: string, start: nat) returns (c: string, i: nat)
    requires start < |s|
    ensures c == FirstComp(s[start..]) && start < i <= |s| && s[i..] == AfterComp(s[start..])
  {
    c, i := "", start;
    while i < |s| && s[i] != '\\' && s[i] != '/'
      invariant start <= i <= |s| && c == s[start..i] && forall j :: 0 <= j < |c| ==> !IsSlash(c[j])
    {
      c := c + [s[i]];
      i := i + 1;
    }
    CompTaken(s, start, i);
    if i < |s| {
      i := i + 1;
    }
  }

  lemma CompTaken(s: string, start: nat, i: nat)
    requires start <= i <= |s| && (i < |s| ==> IsSlash(s[i])) && forall j :: 0 <= j < |s[start..i]| ==> !IsSlash(s[start..i][j])
    ensures FirstComp(s[start..]) == s[start..i] && AfterComp(s[start..]) == if i < |s| then s[i + 1..] else s[i..]
  {
    assert s[start..] == s[start..i] + s[i..];
    FirstCompIs(s[start..i], s[i..]);
    if i < |s| {
      assert s[start..][i - start + 1..] == s[i + 1..];
    }
  }

  /** One double dot and backslash for each dot after the first. */
  method ExpandDots(aux0: string, dots: nat, ghost head: string, ghost names: seq<string>) returns (aux: string)
    requires 0 < dots && aux0 == head + PathOf(names)
    ensures aux == head + PathOf(names + Doubles(dots - 1))
  {
    aux := aux0;
    var k := 1;
    assert names + [] == names;
    while k < dots
      invariant 1 <= k <= dots && aux == head + PathOf(names + Doubles(k - 1))
    {
      OneMoreDouble(aux, head, names, k);
      aux := aux + "..\\";
      k := k + 1;
    }
  }

  lemma OneMoreDouble(aux: string, head: string, names: seq<string>, k: nat)
    requires 0 < k && aux == head + PathOf(names + Doubles(k - 1))
    ensures aux + "..\\" == head + PathOf(names + Doubles(k))
  {
    assert names + Doubles(k) == names + Doubles(k - 1) + [".."];
    PathSnoc(names + Doubles(k - 1), "..");
    Regroup(head, PathOf(names + Doubles(k - 1)), "..", "\\");
    assert aux + "..\\" == aux + ".." + "\\";
  }

  lemma PathSnoc(names: seq<string>, c: string)
    ensures PathOf(names + [c]) == PathOf(names) + c + "\\"
  {
    assert (names + [c])[..|names|] == names;
  }

  /** What a current directory may look like: with or without a trailing backslash. */
  predicate CwdText(text: string, names: seq<string>) {
    text == PathOf(names) || text == PathOf(names)[..|PathOf(names)| - 1]
  }

  lemma PathStarts(names: seq<string>)
    requires names != [] && names[|names| - 1] != "" && !IsSlash(names[|names| - 1][|names[|names| - 1]| - 1])
    ensures var p := PathOf(names); 2 <= |p| && p[|p| - 2] != '\\' && p[..|p| - 1] + "\\" == p
  {}

  /** The drive at the front of the source, or the default drive if there is no colon. */
  method TakeDrive(source: string, default: char) returns (drive: string, i: nat)
    ensures drive == DriveOf(source, default) && i <= |source| && source[i..] == RestOf(source)
  {
    drive, i := "", 0;
    while i < |source| && source[i] != ':'
      invariant i <= |source| && drive == source[..i] && ':' !in source[..i]
    {
      drive := drive + [source[i]];
      i := i + 1;
    }
    if i == |source| {
      assert source[..i] == source;
      NoColon(source);
      drive, i := [default], 0;
    } else {
      ColonIs(source, i);
      i := i + 1;
    }
  }

  lemma {:induction false} NoColon(s: string)
    requires ':' !in s
    ensures Colon(s) == |s|
  {
    if s != "" {
      assert s[0] in s;
      assert s == [s[0]] + s[1..];
      NoColon(s[1..]);
    }
  }

  /** A current directory behind the drive, ended with a backslash. */
  method AppendCwd(drive: string, text: string, ghost names: seq<string>) returns (aux: string)
    requires CwdText(text, names) && Proper(names) && drive != "" && drive[|drive| - 1] != '\\'
    ensures aux == drive + PathOf(names)
  {
    aux := drive + text;
    if names != [] {
      PathStarts(names);
    }
    if aux[|aux| - 1] != '\\' {
      aux := aux + "\\";
    }
    assert text + "\\" == PathOf(names) || text == PathOf(names);
  }

  /** The path that the components are added to: the current directory of the drive, or the root. */
  method Start(drive: string, source: string, i0: nat, cwdText: string -> string, ghost cwds: Cwds, ghost default: char)
      returns (aux: string, i: nat)
    requires i0 <= |source| && source[i0..] == RestOf(source) && drive == DriveOf(source, default)
    requires CwdText(cwdText(drive), cwds(drive)) && Proper(cwds(drive))
    ensures i <= |source| && aux == drive + ":" + PathOf(Origin(source, default, cwds)) && Comps(source[i..]) == NamesIn(source)
  {
    aux, i := drive + ":", i0;
    if i == |source| || (source[i] != '\\' && source[i] != '/') {
      aux := AppendCwd(aux, cwdText(drive), cwds(drive));
    } else {
      aux := aux + "\\";
      i := i + 1;
      assert source[i..] == RestOf(source)[1..];
    }
  }

  /** What is still to come of the names. */
  ghost predicate Toward(goal: Result, drive: string, tndots: bool, names: seq<string>, comps: seq<string>) {
    goal == if tndots then match Fold(Names(names), comps)
                           case Names(all) => Ok(Render(drive, all))
                           case Underflow => NotDir
            else Ok(Render(drive, names + Expanded(comps)))
  }

  /** One component: a name is appended, a dot entry collapsed or expanded. */
  method AddComp(aux0: string, root: nat, c: string, tndots: bool, ghost head: string, ghost names: seq<string>)
      returns (r: Result, ghost names': seq<string>)
    requires aux0 == head + PathOf(names) && root == |head| && Name(c) && Proper(names)
    ensures r.Ok? ==> r.path == head + PathOf(names') && Proper(names')
    ensures if tndots then (if r.Ok? then Step(Names(names), c) == Names(names') else Step(Names(names), c).Underflow?)
            else r.Ok? && names' == names + if Dots(c) == 0 then [c] else Doubles(Dots(c) - 1)
    ensures NotDotted(c) ==> r == Ok(aux0 + c + "\\") && names' == names + [c]
    ensures !NotDotted(c) ==>
      if tndots then (if |c| <= |names| + 1 then r.Ok? && names' == names[..|names| + 1 - |c|] else r.NotDir?)
      else r.Ok? && names' == names + Doubles(|c| - 1)
  {
    var dots := CountDots(c);
    if dots == 0 {
      AppendName(aux0, head, names, c);
      r, names' := Ok(aux0 + c + "\\"), names + [c];
    } else if tndots {
      r, names' := Collapse(aux0, root, dots, head, names);
    } else {
      var aux := ExpandDots(aux0, dots, head, names);
      r, names' := Ok(aux), names + Doubles(dots - 1);
    }
  }

  lemma AppendName(aux: string, head: string, names: seq<string>, c: string)
    requires aux == head + PathOf(names)
    ensures aux + c + "\\" == head + PathOf(names + [c])
  {
    PathSnoc(names, c);
    Regroup(head, PathOf(names), c, "\\");
  }

  method Collapse(aux0: string, root: nat, dots: nat, ghost head: string, ghost names: seq<string>)
      returns (r: Result, ghost names': seq<string>)
    requires aux0 == head + PathOf(names) && root == |head| && 0 < dots && Proper(names)
    ensures if dots - 1 <= |names| then r == Ok(head + PathOf(names')) && names' == names[..|names| - (dots - 1)] else r.NotDir?
  {
    RewoundNames(head, names, dots);
    names' := if dots - 1 <= |names| then names[..|names| - (dots - 1)] else names;
    if dots > 1 {
      r := Rewind(aux0, root, dots);
    } else {
      r := Ok(aux0);
    }
  }

  /** fd32_truename without substituted drives. */
  method TrueName(source: string, tndots: bool, default: char, cwdText: string -> string, ghost cwds: Cwds) returns (res: Result)
    requires forall d :: CwdText(cwdText(d), cwds(d)) && Proper(cwds(d))
    ensures res == Canonical(source, default, cwds, tndots)
    ensures tndots && default != ':' && (forall d :: NoDots(cwds(d))) ==> res.Ok? ==> NoDotEntry(res.path, Colon(res.path))
  {
    if default != ':' && forall d :: NoDots(cwds(d)) {
      CanonicalHasNoDotEntry(source, default, cwds);
    }
    var drive, i := TakeDrive(source, default);
    var aux;
    aux, i := Start(drive, source, i, cwdText, cwds, default);
    ghost var names, goal := Origin(source, default, cwds), Canonical(source, default, cwds, tndots);
    while i < |source|
      invariant i <= |source| && aux == drive + ":" + PathOf(names) && Proper(names)
      invariant Toward(goal, drive, tndots, names, Comps(source[i..]))
      decreases |source| - i
    {
      var r;
      r, i, names := Canonicalize(aux, drive, source, i, tndots, names, goal);
      if r.NotDir? {
        return NotDir;
      }
      aux := r.path;
    }
    res := Finish(aux, drive, names);
    NothingLeft(goal, drive, tndots, names, source[i..]);
  }

  /** The next component is taken from the source and dealt with; an empty one is skipped. */
  method Canonicalize(aux: string, drive: string, source: string, i0: nat, tndots: bool, ghost names: seq<string>, ghost goal: Result)
      returns (r: Result, i: nat, ghost names': seq<string>)
    requires i0 < |source| && aux == drive + ":" + PathOf(names) && Proper(names)
    requires Toward(goal, drive, tndots, names, Comps(source[i0..]))
    ensures i0 < i <= |source|
    ensures if r.Ok? then r.path == drive + ":" + PathOf(names') && Proper(names') && Toward(goal, drive, tndots, names', Comps(source[i..]))
            else goal == NotDir
  {
    var c;
    c, i := NextComp(source, i0);
    FirstCompIsName(source[i0..]);
    if c == "" {
      r, names' := Ok(aux), names;
    } else {
      r, names' := AddComp(aux, |drive| + 1, c, tndots, drive + ":", names);
      GoOn(goal, drive, tndots, names, c, Comps(source[i..]), r, names');
    }
  }

  method Finish(aux: string, ghost drive: string, ghost names: seq<string>) returns (res: Result)
    requires aux == drive + ":" + PathOf(names)
    ensures res == Ok(Render(drive, names))
  {
    if aux[|aux| - 1] == '\\' && aux[|aux| - 2] != ':' {
      res := Ok(aux[..|aux| - 1]);
    } else {
      res := Ok(aux);
    }
  }

  lemma NothingLeft(goal: Result, drive: string, tndots: bool, names: seq<string>, s: string)
    requires s == "" && Toward(goal, drive, tndots, names, Comps(s))
    ensures goal == Ok(Render(drive, names))
  {
    assert names + [] == names;
  }

  lemma GoOn(goal: Result, drive: string, tndots: bool, names: seq<string>, c: string, comps: seq<string>, r: Result, names': seq<string>)
    requires Toward(goal, drive, tndots, names, [c] + comps)
    requires if tndots then (if r.Ok? then Step(Names(names), c) == Names(names') else Step(Names(names), c).Underflow?)
             else r.Ok? && names' == names + if Dots(c) == 0 then [c] else Doubles(Dots(c) - 1)
    ensures if r.Ok? then Toward(goal, drive, tndots, names', comps) else goal == NotDir
  {
    assert ([c] + comps)[1..] == comps;
    FoldUnderflow(comps);
    if !tndots {
      var e := if Dots(c) == 0 then [c] else Doubles(Dots(c) - 1);
      Regroup3(names, e, Expanded(comps));
    }
  }
}
