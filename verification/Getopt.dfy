/** Parsing of short options with permutation of the arguments. */
module Getopt {

  datatype Option<T> = None | Some(value: T)

  /** What one call reports: an option character and its argument, or the end of the options. */
  datatype Step = Done | Found(c: char, arg: Option<string>)

  /** How a character occurs in the list of options. */
  datatype Kind = Unknown | Plain | Required | Optional

  /** strchr */
  function IndexOf(s: string, c: char): (i: nat)
    ensures i <= |s| && (i < |s| ==> s[i] == c) && forall j :: 0 <= j < i ==> s[j] != c
  {
    if s == "" then 0 else if s[0] == c then 0 else 1 + IndexOf(s[1..], c)
  }

  function KindOf(optstring: string, c: char): Kind {
    var i := IndexOf(optstring, c);
    if i == |optstring| || c == ':' then Unknown
    else if i + 1 < |optstring| && optstring[i + 1] == ':' then
      if i + 2 < |optstring| && optstring[i + 2] == ':' then Optional else Required
    else Plain
  }

  /** The element does not have option syntax. */
  predicate NonOption(e: string) {
    |e| < 2 || e[0] != '-'
  }

  /** What is reported when the argument of an option is missing. */
  function Missing(optstring: string): char {
    if optstring != "" && optstring[0] == ':' then ':' else '?'
  }

  /** The options in the rest s of an option element that is followed by `next`, and whether the last of
      them takes that as its argument. */
  function Scan(optstring: string, s: string, next: Option<string>): (seq<Step>, bool) {
    if s == "" then ([], false)
    else
      var c, rest := s[0], s[1..];
      match KindOf(optstring, c)
      case Unknown => var more := Scan(optstring, rest, next); ([Found('?', None)] + more.0, more.1)
      case Plain => var more := Scan(optstring, rest, next); ([Found(c, None)] + more.0, more.1)
      case Optional => ([Found(c, if rest == "" then None else Some(rest))], false)
      case Required =>
        if rest != "" then ([Found(c, Some(rest))], false)
        else if next.Some? then ([Found(c, next)], true)
        else ([Found(Missing(optstring), None)], false)
  }

  /** The elements taken as options and their arguments, the others, and the options found, in order. */
  datatype Parsed = Parsed(options: seq<string>, others: seq<string>, steps: seq<Step>)

  function First(args: seq<string>): Option<string> {
    if args == [] then None else Some(args[0])
  }

  /** The options of an element e, of which s is still to be scanned, and of all after it. */
  function ParseElement(optstring: string, e: string, s: string, after: seq<string>): Parsed
    decreases |after|, 2
  {
    var scan := Scan(optstring, s, First(after));
    if scan.1 && after != [] then
      var more := Parse(optstring, after[1..]);
      Parsed([e, after[0]] + more.options, more.others, scan.0 + more.steps)
    else
      var more := Parse(optstring, after);
      Parsed([e] + more.options, more.others, scan.0 + more.steps)
  }

  /** What all the arguments amount to. */
  function Parse(optstring: string, args: seq<string>): Parsed
    decreases |args|, 1
  {
    if args == [] then Parsed([], [], [])
    else if args[0] == "--" then Parsed(["--"], args[1..], [])
    else if NonOption(args[0]) then
      var more := Parse(optstring, args[1..]);
      Parsed(more.options, [args[0]] + more.others, more.steps)
    else ParseElement(optstring, args[0], args[0][1..], args[1..])
  }

  /** What is still to come when s is left of the current element. */
  function ParseFrom(optstring: string, s: string, rest: seq<string>): Parsed {
    if s == "" || rest == [] then Parse(optstring, rest) else ParseElement(optstring, rest[0], s, rest[1..])
  }

  /** Exchanging the segments b .. m and m .. t. */
  ghost function Rotated<T>(s: seq<T>, b: nat, m: nat, t: nat): seq<T>
    requires b <= m <= t <= |s|
  {
    s[..b] + s[m..t] + s[b..m] + s[t..]
  }

  /** Exchanging two disjoint segments of equal length. */
  ghost function Swapped<T>(s: seq<T>, i: nat, j: nat, n: nat): seq<T>
    requires i + n <= j && j + n <= |s|
  {
    s[..i] + s[j..j + n] + s[i + n..j] + s[i..i + n] + s[j + n..]
  }

  lemma SwapOneMore<T>(s: seq<T>, i: nat, j: nat, n: nat)
    requires i + n < j && j + n < |s|
    ensures var s' := Swapped(s, i, j, n);
      |s'| == |s| && Swapped(s, i, j, n + 1) == s'[i + n := s'[j + n]][j + n := s'[i + n]]
  {
    var s' := Swapped(s, i, j, n);
    var r, r' := s'[i + n := s'[j + n]][j + n := s'[i + n]], Swapped(s, i, j, n + 1);
    assert s'[i + n] == s[i + n] && s'[j + n] == s[j + n];
    forall k | 0 <= k < |s|
      ensures r[k] == r'[k]
    {}
  }

  lemma NothingToRotate<T>(s: seq<T>, b: nat, m: nat, t: nat)
    requires b <= m <= t <= |s| && (b == m || m == t)
    ensures Rotated(s, b, m, t) == s
  {}

  lemma SwapFarEnd<T>(s: seq<T>, s': seq<T>, b: nat, m: nat, t: nat, t': nat)
    requires b <= m <= t <= |s| && m - b < t - m && t' == t - (m - b) && s' == Swapped(s, b, t', m - b)
    ensures |s'| == |s| && Rotated(s', b, m, t') == Rotated(s, b, m, t)
  {
    assert s'[..b] == s[..b] && s'[m..t'] == s[m..t'] && s'[b..m] == s[t'..t] && s'[t'..] == s[b..m] + s[t..];
    assert s[m..t] == s[m..t'] + s[t'..t];
  }

  lemma SwapNearEnd<T>(s: seq<T>, s': seq<T>, b: nat, m: nat, t: nat, b': nat)
    requires b <= m <= t <= |s| && t - m <= m - b && b' == b + (t - m) && s' == Swapped(s, b, m, t - m)
    ensures |s'| == |s| && Rotated(s', b', m, t) == Rotated(s, b, m, t)
  {
    assert s'[..b'] == s[..b] + s[m..t] && s'[m..t] == s[b..b'] && s'[b'..m] == s[b'..m] && s'[t..] == s[t..];
    assert s[b..m] == s[b..b'] + s[b'..m];
  }

  /** The arguments as they lie during a run: the name of the program, the options moved to the front, the
      non-options skipped, the options processed since, and the rest not yet looked at. */
  ghost function Layout(args: seq<string>, front: seq<string>, skipped: seq<string>, back: seq<string>, pos: nat): seq<string>
    requires 0 < pos <= |args|
  {
    [args[0]] + front + skipped + back + args[pos..]
  }

  lemma LayoutAt(args: seq<string>, front: seq<string>, skipped: seq<string>, back: seq<string>, pos: nat)
    requires 0 < pos < |args| && pos == 1 + |front| + |skipped| + |back|
    ensures Layout(args, front, skipped, back, pos)[pos] == args[pos]
  {}

  lemma ExchangedLayout(args: seq<string>, front: seq<string>, skipped: seq<string>, back: seq<string>,
                        s: seq<string>, b: nat, m: nat, t: nat)
    requires 0 < t <= |args| && b == 1 + |front| && m == b + |skipped| && t == m + |back|
    requires s == Layout(args, front, skipped, back, t)
    ensures |s| == |args| && Rotated(s, b, m, t) == Layout(args, front + back, skipped, [], t)
  {
    assert s[..b] == [args[0]] + front && s[b..m] == skipped && s[m..t] == back && s[t..] == args[t..];
  }

  lemma NoneSkipped(args: seq<string>, front: seq<string>, back: seq<string>, pos: nat)
    requires 0 < pos <= |args|
    ensures Layout(args, front, [], back, pos) == Layout(args, front + back, [], [], pos)
  {}

  lemma SkipOne(args: seq<string>, front: seq<string>, skipped: seq<string>, pos: nat)
    requires 0 < pos < |args|
    ensures Layout(args, front, skipped, [], pos) == Layout(args, front, skipped + [args[pos]], [], pos + 1)
  {}

  lemma TakeSome(args: seq<string>, front: seq<string>, skipped: seq<string>, back: seq<string>, pos: nat, n: nat)
    requires 0 < pos && pos + n <= |args|
    ensures Layout(args, front, skipped, back, pos) == Layout(args, front, skipped, back + args[pos..pos + n], pos + n)
  {
    assert args[pos..] == args[pos..pos + n] + args[pos + n..];
  }

  lemma NextElement(args: seq<string>, front: seq<string>, skipped: seq<string>, back: seq<string>, pos: nat, n: nat)
    requires 0 < pos < |args| && pos == 1 + |front| + |skipped| + |back| && pos + n <= |args|
    ensures Layout(args, front, skipped, back, pos) == Layout(args, front, skipped, back + args[pos..pos + n], pos + n)
    ensures pos + 1 < |args| ==> Layout(args, front, skipped, back, pos)[pos + 1] == args[pos..][1..][0]
    ensures First(args[pos..][1..]) == if pos + 1 < |args| then Some(args[pos + 1]) else None
    ensures args[pos..][n..] == args[pos + n..] && args[pos..][..n] == args[pos..pos + n]
  {
    TakeSome(args, front, skipped, back, pos, n);
  }

  /** The parse of all arguments is what has been found so far, followed by the parse of the rest. */
  ghost predicate OnTrack(all: Parsed, options: seq<string>, others: seq<string>, found: seq<Step>, more: Parsed) {
    all == Parsed(options + more.options, others + more.others, found + more.steps)
  }

  lemma Advanced(all: Parsed, options: seq<string>, others: seq<string>, found: seq<Step>, before: Parsed,
                 taken: seq<string>, step: Step, after: Parsed)
    requires OnTrack(all, options, others, found, before)
    requires before.options == taken + after.options && before.others == after.others && before.steps == [step] + after.steps
    ensures OnTrack(all, options + taken, others, found + [step], after)
  {}

  lemma NonOptionParse(optstring: string, args: seq<string>, pos: nat, goal: Parsed, options: seq<string>, others: seq<string>,
                       found: seq<Step>)
    requires 0 < pos < |args| && NonOption(args[pos])
    requires OnTrack(goal, options, others, found, Parse(optstring, args[pos..]))
    ensures OnTrack(goal, options, others + [args[pos]], found, Parse(optstring, args[pos + 1..]))
  {
    assert args[pos..][1..] == args[pos + 1..];
    var more := Parse(optstring, args[pos + 1..]);
    assert others + ([args[pos]] + more.others) == others + [args[pos]] + more.others;
  }

  lemma EndParse(optstring: string, args: seq<string>, pos: nat, goal: Parsed, options: seq<string>, others: seq<string>,
                 found: seq<Step>)
    requires 0 < pos < |args| && args[pos] == "--"
    requires OnTrack(goal, options, others, found, Parse(optstring, args[pos..]))
    ensures OnTrack(goal, options + ["--"], others + args[pos + 1..], found, Parse(optstring, args[|args|..]))
  {
    assert args[pos..][1..] == args[pos + 1..] && args[|args|..] == [];
  }

  lemma SkipRest(args: seq<string>, front: seq<string>, skipped: seq<string>, pos: nat)
    requires 0 < pos <= |args|
    ensures Layout(args, front, skipped, [], pos) == Layout(args, front, skipped + args[pos..], [], |args|)
  {
    assert args[|args|..] == [];
  }

  lemma AllParsed(optstring: string, args: seq<string>, goal: Parsed, front: seq<string>, skipped: seq<string>, found: seq<Step>)
    requires 0 < |args| && OnTrack(goal, front, skipped, found, Parse(optstring, args[|args|..]))
    ensures goal == Parsed(front, skipped, found)
    ensures Layout(args, front, skipped, [], |args|) == [args[0]] + front + skipped
  {
    assert args[|args|..] == [] && front + [] == front && skipped + [] == skipped && found + [] == found;
  }

  /** args is xs and ys merged, each in its own order. */
  ghost predicate Merge(args: seq<string>, xs: seq<string>, ys: seq<string>) {
    if args == [] then xs == [] && ys == []
    else
      || (xs != [] && xs[0] == args[0] && Merge(args[1..], xs[1..], ys))
      || (ys != [] && ys[0] == args[0] && Merge(args[1..], xs, ys[1..]))
  }

  lemma MergeLeft(args: seq<string>, xs: seq<string>, ys: seq<string>, args': seq<string>, xs': seq<string>)
    requires args' != [] && xs' != [] && xs'[0] == args'[0] && args'[1..] == args && xs'[1..] == xs && Merge(args, xs, ys)
    ensures Merge(args', xs', ys)
  {}

  lemma MergeRight(args: seq<string>, xs: seq<string>, ys: seq<string>, args': seq<string>, ys': seq<string>)
    requires args' != [] && ys' != [] && ys'[0] == args'[0] && args'[1..] == args && ys'[1..] == ys && Merge(args, xs, ys)
    ensures Merge(args', xs, ys')
  {}

  lemma {:induction false} MergeOthers(args: seq<string>)
    ensures Merge(args, [], args)
  {
    if args != [] {
      MergeOthers(args[1..]);
    }
  }

  /** The parse splits the arguments in two without losing any or changing the order within either part. */
  lemma {:induction false} ParseSplits(optstring: string, args: seq<string>)
    ensures Merge(args, Parse(optstring, args).options, Parse(optstring, args).others)
    decreases |args|, 0
  {
    if args == [] {
    } else if args[0] == "--" {
      MergeOthers(args[1..]);
      MergeLeft(args[1..], [], args[1..], args, ["--"]);
    } else if NonOption(args[0]) {
      var p := Parse(optstring, args[1..]);
      ParseSplits(optstring, args[1..]);
      MergeRight(args[1..], p.options, p.others, args, [args[0]] + p.others);
    } else {
      ElementSplits(optstring, args[0], args[0][1..], args[1..], args);
    }
  }

  lemma {:induction false} ElementSplits(optstring: string, e: string, s: string, after: seq<string>, args: seq<string>)
    requires args == [e] + after
    ensures var p := ParseElement(optstring, e, s, after); Merge(args, p.options, p.others)
    decreases |after|, 1
  {
    assert args[1..] == after;
    if Scan(optstring, s, First(after)).1 && after != [] {
      var p := Parse(optstring, after[1..]);
      ParseSplits(optstring, after[1..]);
      MergeLeft(after[1..], p.options, p.others, after, [after[0]] + p.options);
      MergeLeft(after, [after[0]] + p.options, p.others, args, [e, after[0]] + p.options);
    } else {
      var p := Parse(optstring, after);
      ParseSplits(optstring, after);
      MergeLeft(after, p.options, p.others, args, [e] + p.options);
    }
  }


  /** What is reported for character c with `rest` behind it in its element and `next` after the element. */
  function Report(optstring: string, c: char, rest: string, next: Option<string>): Step {
    match KindOf(optstring, c)
    case Unknown => Found('?', None)
    case Plain => Found(c, None)
    case Optional => Found(c, if rest == "" then None else Some(rest))
    case Required => if rest != "" then Found(c, Some(rest)) else if next.Some? then Found(c, next) else Found(Missing(optstring), None)
  }

  /** How many elements the report uses up. */
  function UsedUp(optstring: string, c: char, rest: string, next: Option<string>): nat {
    match KindOf(optstring, c)
    case Unknown => if rest == "" then 1 else 0
    case Plain => if rest == "" then 1 else 0
    case Optional => 1
    case Required => if rest == "" && next.Some? then 2 else 1
  }

  /** Character c is in s first at position i. */
  ghost predicate FirstAt(s: string, c: char, i: nat) {
    i < |s| && s[i] == c && forall j :: 0 <= j < i ==> s[j] != c
  }

  ghost predicate ColonAt(s: string, i: nat) {
    i < |s| && s[i] == ':'
  }

  /** What is to be reported for character c with `rest` behind it in its element and `next` after the element, and how
      many elements it uses up, by the characters of the option string: behind the first place of c there, one colon
      stands for an argument in the rest or else the next element, two for one in the rest only. */
  ghost predicate Reports(optstring: string, c: char, rest: string, next: Option<string>, step: Step, used: int) {
    && (c == ':' || c !in optstring ==> step == Found('?', None) && used == if rest == "" then 1 else 0)
    && forall i: nat :: FirstAt(optstring, c, i) && c != ':' ==>
         if !ColonAt(optstring, i + 1) then step == Found(c, None) && used == if rest == "" then 1 else 0
         else if ColonAt(optstring, i + 2) then step == Found(c, if rest == "" then None else Some(rest)) && used == 1
         else if rest != "" then step == Found(c, Some(rest)) && used == 1
         else if next.Some? then step == Found(c, next) && used == 2
         else step == Found(if ColonAt(optstring, 0) then ':' else '?', None) && used == 1
  }

  /** The report by the kind of the option is the one by the characters of the option string. */
  lemma ReportsByKind(optstring: string, c: char, rest: string, next: Option<string>)
    ensures Reports(optstring, c, rest, next, Report(optstring, c, rest, next), UsedUp(optstring, c, rest, next))
  {
    FirstIs(optstring, c);
  }

  /** One colon, and no second one, is behind the first place of option character c. */
  ghost predicate OneColon(optstring: string, c: char) {
    c != ':' && exists i: nat :: FirstAt(optstring, c, i) && ColonAt(optstring, i + 1) && !ColonAt(optstring, i + 2)
  }

  /** What is to be found in `-c x`: the option takes x as its argument, or else x is a non-option. */
  ghost predicate PairFound(optstring: string, c: char, x: string, found: seq<Step>, options: nat) {
    && (OneColon(optstring, c) ==> found == [Found(c, Some(x))] && options == 2)
    && (!OneColon(optstring, c) && (|x| < 2 || x[0] != '-') ==>
          |found| == 1 && Reports(optstring, c, "", Some(x), found[0], 1) && options == 1)
  }

  lemma PairParsed(optstring: string, c: char, x: string)
    requires c != '-'
    ensures var p := Parse(optstring, [['-', c], x]); PairFound(optstring, c, x, p.steps, |p.options|)
  {
    var args, k := [['-', c], x], IndexOf(optstring, c);
    assert args[0][1..] == [c] && args[1..] == [x] && [x][1..] == [];
    FirstIs(optstring, c);
    ReportsByKind(optstring, c, "", Some(x));
    assert [c][1..] == "" && Scan(optstring, "", Some(x)) == ([], false);
    assert Parse(optstring, args) == ParseElement(optstring, args[0], [c], [x]);
    assert Parse(optstring, []) == Parsed([], [], []);
    assert KindOf(optstring, c) == Required ==> FirstAt(optstring, c, k) && OneColon(optstring, c);
    if OneColon(optstring, c) {
      assert KindOf(optstring, c) == Required;
    } else if |x| < 2 || x[0] != '-' {
      assert Parse(optstring, [x]) == Parsed([], [x], []);
    }
  }

  /** There is at most one first place. */
  lemma FirstIs(s: string, c: char)
    ensures forall i: nat :: FirstAt(s, c, i) <==> i == IndexOf(s, c) < |s|
  {
    forall i: nat | FirstAt(s, c, i)
      ensures i == IndexOf(s, c)
    {
      var k := IndexOf(s, c);
      assert i <= k && k <= i;
    }
  }

  /** The elements that begin with a dash and go on behind it. */
  ghost function Dashed(args: seq<string>): seq<string> {
    if args == [] then []
    else if 2 <= |args[0]| && args[0][0] == '-' then [args[0]] + Dashed(args[1..])
    else Dashed(args[1..])
  }

  ghost function Undashed(args: seq<string>): seq<string> {
    if args == [] then []
    else if 2 <= |args[0]| && args[0][0] == '-' then Undashed(args[1..])
    else [args[0]] + Undashed(args[1..])
  }

  /** A string of option characters without arguments, character by character. */
  ghost function Letters(optstring: string, s: string): (r: seq<Step>)
    ensures |r| == |s| && forall i :: 0 <= i < |s| ==> r[i] == Found(if s[i] in optstring then s[i] else '?', None)
  {
    seq(|s|, i requires 0 <= i < |s| => Found(if s[i] in optstring then s[i] else '?', None))
  }

  ghost function AllLetters(optstring: string, args: seq<string>): seq<Step> {
    if args == [] then []
    else if 2 <= |args[0]| && args[0][0] == '-' then Letters(optstring, args[0][1..]) + AllLetters(optstring, args[1..])
    else AllLetters(optstring, args[1..])
  }

  lemma {:induction false} ScanLetters(optstring: string, s: string, next: Option<string>)
    requires ':' !in optstring
    ensures Scan(optstring, s, next) == (Letters(optstring, s), false)
  {
    if s != "" {
      var c, k := s[0], IndexOf(optstring, s[0]);
      assert c in optstring <==> k < |optstring|;
      ScanLetters(optstring, s[1..], next);
      assert Letters(optstring, s) == [Found(if c in optstring then c else '?', None)] + Letters(optstring, s[1..]);
    }
  }

  /** When no option takes an argument, the options are the elements with a dash, up to `--` if it is there. */
  lemma {:induction false} PlainParse(optstring: string, before: seq<string>, end: bool, after: seq<string>)
    requires ':' !in optstring && "--" !in before && (!end ==> after == [])
    ensures Parse(optstring, before + (if end then ["--"] else []) + after) ==
            Parsed(Dashed(before) + (if end then ["--"] else []), Undashed(before) + after, AllLetters(optstring, before))
  {
    var tail := if end then ["--"] else [];
    var args := before + tail + after;
    if before == [] {
      assert end ==> args[1..] == after;
      assert [] + tail == tail && [] + after == after;
    } else {
      var e, rest := before[0], before[1..] + tail + after;
      assert args == [e] + rest;
      PlainParse(optstring, before[1..], end, after);
      if 2 <= |e| && e[0] == '-' {
        PlainElement(optstring, e, rest);
      } else {
        assert ([e] + rest)[1..] == rest;
      }
      PlainFirst(optstring, before, tail, after, Parse(optstring, args), Parse(optstring, rest));
    }
  }

  lemma PlainFirst(optstring: string, before: seq<string>, tail: seq<string>, after: seq<string>, p: Parsed, more: Parsed)
    requires before != []
    requires more == Parsed(Dashed(before[1..]) + tail, Undashed(before[1..]) + after, AllLetters(optstring, before[1..]))
    requires var e := before[0];
      p == if 2 <= |e| && e[0] == '-' then Parsed([e] + more.options, more.others, Letters(optstring, e[1..]) + more.steps)
           else Parsed(more.options, [e] + more.others, more.steps)
    ensures p == Parsed(Dashed(before) + tail, Undashed(before) + after, AllLetters(optstring, before))
  {
    Joined([before[0]], Dashed(before[1..]), tail);
    Joined([before[0]], Undashed(before[1..]), after);
  }

  lemma Joined<T>(a: seq<T>, b: seq<T>, c: seq<T>)
    ensures (a + b) + c == a + (b + c)
  {}

  lemma PlainElement(optstring: string, e: string, rest: seq<string>)
    requires ':' !in optstring && 2 <= |e| && e[0] == '-' && e != "--"
    ensures var more := Parse(optstring, rest);
      Parse(optstring, [e] + rest) == Parsed([e] + more.options, more.others, Letters(optstring, e[1..]) + more.steps)
  {
    assert ([e] + rest)[1..] == rest;
    ScanLetters(optstring, e[1..], First(rest));
  }

  /** One report takes the parse of the rest one step further. */
  lemma ParseStep(optstring: string, s: string, rest: seq<string>) returns (n: nat)
    requires s != "" && rest != []
    ensures n == UsedUp(optstring, s[0], s[1..], First(rest[1..])) <= |rest|
    ensures var before := ParseFrom(optstring, s, rest);
      var after := ParseFrom(optstring, if n == 0 then s[1..] else "", rest[n..]);
      && before.options == rest[..n] + after.options && before.others == after.others
      && before.steps == [Report(optstring, s[0], s[1..], First(rest[1..]))] + after.steps
  {
    n := UsedUp(optstring, s[0], s[1..], First(rest[1..]));
    if n == 0 {
      assert rest[0..] == rest;
    } else if n == 2 {
      assert rest[1..][1..] == rest[2..] && rest[..2] == [rest[0], rest[1..][0]];
    } else {
      assert rest[..1] == [rest[0]];
    }
  }

  /** The indices describe the layout of the arguments. */
  ghost predicate LaidAs(argv: seq<string>, args: seq<string>, front: seq<string>, skipped: seq<string>, back: seq<string>,
                         first: nat, last: nat, optind: nat, nextchar: string)
  {
    && 0 < |args| && optind <= |args| && first == 1 + |front| && last == first + |skipped| && optind == last + |back|
    && argv == Layout(args, front, skipped, back, optind) && (nextchar != "" ==> optind < |args|)
  }

  /** What has been found and what is still to come make up the goal. */
  ghost predicate Tracked(goal: Parsed, optstring: string, args: seq<string>, options: seq<string>, skipped: seq<string>,
                          optind: nat, nextchar: string, found: seq<Step>)
  {
    0 < optind <= |args| && OnTrack(goal, options, skipped, found, ParseFrom(optstring, nextchar, args[optind..]))
  }

  /** One report, on the layout and the parse. */
  lemma Reported(goal: Parsed, optstring: string, argv: seq<string>, args: seq<string>, front: seq<string>, skipped: seq<string>,
                 back: seq<string>, first: nat, last: nat, optind: nat, nextchar: string, found: seq<Step>)
      returns (n: nat, next: Option<string>, step: Step, back': seq<string>)
    requires LaidAs(argv, args, front, skipped, back, first, last, optind, nextchar) && nextchar != ""
    requires Tracked(goal, optstring, args, front + back, skipped, optind, nextchar, found)
    ensures |argv| == |args| && next == if optind + 1 < |argv| then Some(argv[optind + 1]) else None
    ensures n == UsedUp(optstring, nextchar[0], nextchar[1..], next) && step == Report(optstring, nextchar[0], nextchar[1..], next)
    ensures optind + n <= |args| && back' == back + args[optind..optind + n]
    ensures var nextchar' := if n == 0 then nextchar[1..] else "";
      (nextchar' != "" ==> optind + n < |args|) ==>
        && LaidAs(argv, args, front, skipped, back', first, last, optind + n, nextchar')
        && Tracked(goal, optstring, args, front + back', skipped, optind + n, nextchar', found + [step])
    ensures step.Found?
  {
    n := ParseStep(optstring, nextchar, args[optind..]);
    NextElement(args, front, skipped, back, optind, n);
    next := if optind + 1 < |argv| then Some(argv[optind + 1]) else None;
    step := Report(optstring, nextchar[0], nextchar[1..], next);
    back' := back + args[optind..optind + n];
    var nextchar' := if n == 0 then nextchar[1..] else "";
    Advanced(goal, front + back, skipped, found, ParseFrom(optstring, nextchar, args[optind..]),
             args[optind..optind + n], step, ParseFrom(optstring, nextchar', args[optind + n..]));
    assert front + back + args[optind..optind + n] == front + back';
  }

  /** The options processed since the last skip go before the non-options. */
  lemma Moved(argv: seq<string>, argv': seq<string>, args: seq<string>, front: seq<string>, skipped: seq<string>,
              back: seq<string>, first: nat, last: nat, optind: nat)
    requires LaidAs(argv, args, front, skipped, back, first, last, optind, "")
    requires if first != last && last != optind then |argv| == |args| && argv' == Rotated(argv, first, last, optind) else argv' == argv
    ensures LaidAs(argv', args, front + back, skipped, [], 1 + |front + back|, optind, optind, "")
  {
    if first != last && last != optind {
      ExchangedLayout(args, front, skipped, back, argv, first, last, optind);
    } else if last != optind {
      assert skipped == [];
      NoneSkipped(args, front, back, optind);
    } else {
      assert back == [] && front + back == front;
    }
  }

  /** One more non-option is skipped. */
  lemma SkippedOne(goal: Parsed, optstring: string, argv: seq<string>, args: seq<string>, front: seq<string>, skipped: seq<string>,
                   first: nat, optind: nat, found: seq<Step>)
    requires LaidAs(argv, args, front, skipped, [], first, optind, optind, "") && optind < |argv| && NonOption(argv[optind])
    requires Tracked(goal, optstring, args, front, skipped, optind, "", found)
    ensures optind < |args| && LaidAs(argv, args, front, skipped + [args[optind]], [], first, optind + 1, optind + 1, "")
    ensures Tracked(goal, optstring, args, front, skipped + [args[optind]], optind + 1, "", found)
  {
    LayoutAt(args, front, skipped, [], optind);
    SkipOne(args, front, skipped, optind);
    NonOptionParse(optstring, args, optind, goal, front, skipped, found);
  }

  /** The element `--`: it counts as an option, and everything behind it is skipped. */
  lemma Ended(goal: Parsed, optstring: string, argv: seq<string>, argv': seq<string>, args: seq<string>, front: seq<string>,
              skipped: seq<string>, first: nat, optind: nat, found: seq<Step>)
    requires LaidAs(argv, args, front, skipped, [], first, optind, optind, "") && optind < |argv| && argv[optind] == "--"
    requires Tracked(goal, optstring, args, front, skipped, optind, "", found)
    requires if first != optind then |argv| == |args| && argv' == Rotated(argv, first, optind, optind + 1) else argv' == argv
    ensures optind < |args| && LaidAs(argv', args, front + ["--"], skipped + args[optind + 1..], [], first + 1, |args|, |args|, "")
    ensures Tracked(goal, optstring, args, front + ["--"], skipped + args[optind + 1..], |args|, "", found)
  {
    LayoutAt(args, front, skipped, [], optind);
    EndParse(optstring, args, optind, goal, front, skipped, found);
    EndLaid(argv, argv', args, front, skipped, first, optind);
  }

  lemma EndLaid(argv: seq<string>, argv': seq<string>, args: seq<string>, front: seq<string>, skipped: seq<string>,
                first: nat, optind: nat)
    requires LaidAs(argv, args, front, skipped, [], first, optind, optind, "") && optind < |args| && args[optind] == "--"
    requires if first != optind then |argv| == |args| && argv' == Rotated(argv, first, optind, optind + 1) else argv' == argv
    ensures LaidAs(argv', args, front + ["--"], skipped + args[optind + 1..], [], first + 1, |args|, |args|, "")
  {
    TakeSome(args, front, skipped, [], optind, 1);
    assert [] + args[optind..optind + 1] == ["--"];
    Moved(argv, argv', args, front, skipped, ["--"], first, optind, optind + 1);
    SkipRest(args, front + ["--"], skipped, optind + 1);
  }

  /** An option element is entered behind its dash. */
  lemma Entered(goal: Parsed, optstring: string, argv: seq<string>, args: seq<string>, front: seq<string>, skipped: seq<string>,
                first: nat, optind: nat, found: seq<Step>)
    requires LaidAs(argv, args, front, skipped, [], first, optind, optind, "") && optind < |argv| == |args|
    requires !NonOption(argv[optind]) && argv[optind] != "--"
    requires Tracked(goal, optstring, args, front, skipped, optind, "", found)
    ensures LaidAs(argv, args, front, skipped, [], first, optind, optind, argv[optind][1..])
    ensures Tracked(goal, optstring, args, front + [], skipped, optind, argv[optind][1..], found)
  {
    LayoutAt(args, front, skipped, [], optind);
    assert front + [] == front;
  }

  /** Nothing is left to look at. */
  lemma Complete(goal: Parsed, optstring: string, argv: seq<string>, args: seq<string>, front: seq<string>, skipped: seq<string>,
                 first: nat, found: seq<Step>)
    requires LaidAs(argv, args, front, skipped, [], first, |args|, |args|, "")
    requires Tracked(goal, optstring, args, front, skipped, |args|, "", found)
    ensures goal == Parsed(front, skipped, found) && argv == [args[0]] + front + skipped
  {
    AllParsed(optstring, args, goal, front, skipped, found);
  }

  /** The option string does not ask for another order than the one that permutes the arguments. */
  predicate Permutes(optstring: string) {
    optstring == "" || (optstring[0] != '-' && optstring[0] != '+')
  }

  class Parser {
    const argv: array<string>
    var optind: nat
    var nextchar: string
    var firstNonopt: nat
    var lastNonopt: nat
    ghost const args: seq<string>
    ghost var front: seq<string>
    ghost var skipped: seq<string>
    ghost var back: seq<string>

    ghost predicate Laid()
      reads this, argv
    {
      |args| == argv.Length && LaidAs(argv[..], args, front, skipped, back, firstNonopt, lastNonopt, optind, nextchar)
    }

    /** The options found so far are those of an in-order parse, whose result is the goal. */
    ghost predicate Following(goal: Parsed, optstring: string, found: seq<Step>)
      reads this
    {
      Tracked(goal, optstring, args, front + back, skipped, optind, nextchar, found)
    }

    /** _getopt_initialize: the scan starts behind the name of the program. */
    constructor (arguments: array<string>)
      requires 0 < arguments.Length
      ensures argv == arguments && args == arguments[..] && Laid()
      ensures forall optstring :: Permutes(optstring) ==> Following(Parse(optstring, args[1..]), optstring, [])
    {
      argv, args := arguments, arguments[..];
      optind, firstNonopt, lastNonopt, nextchar := 1, 1, 1, "";
      front, skipped, back := [], [], [];
      new;
      assert argv[..] == Layout(args, [], [], [], 1);
      forall optstring: string
        ensures Following(Parse(optstring, args[1..]), optstring, [])
      {
        var p := Parse(optstring, args[1..]);
        assert p == Parsed([] + [] + p.options, [] + p.others, [] + p.steps);
      }
    }

    /** Swaps n elements from i on with those from j on. */
    method SwapBlocks(i: nat, j: nat, n: nat)
      requires i + n <= j && j + n <= argv.Length
      modifies argv
      ensures argv[..] == Swapped(old(argv[..]), i, j, n)
    {
      var k := 0;
      while k < n
        invariant 0 <= k <= n
        invariant argv[..] == Swapped(old(argv[..]), i, j, k)
      {
        SwapOneMore(old(argv[..]), i, j, k);
        argv[i + k], argv[j + k] := argv[j + k], argv[i + k];
        k := k + 1;
      }
    }

    /** The bottom segment, the shorter one, is swapped with the far end of the top one. */
    method SwapFar(bottom: nat, middle: nat, top: nat) returns (top': nat)
      requires bottom < middle < top <= argv.Length && middle - bottom < top - middle
      modifies argv
      ensures middle <= top' < top
      ensures Rotated(argv[..], bottom, middle, top') == Rotated(old(argv[..]), bottom, middle, top)
    {
      var len := middle - bottom;
      top' := top - len;
      SwapBlocks(bottom, top', len);
      SwapFarEnd(old(argv[..]), argv[..], bottom, middle, top, top');
    }

    /** The top segment, the shorter one, is swapped with the near end of the bottom one. */
    method SwapNear(bottom: nat, middle: nat, top: nat) returns (bottom': nat)
      requires bottom < middle < top <= argv.Length && top - middle <= middle - bottom
      modifies argv
      ensures bottom < bottom' <= middle
      ensures Rotated(argv[..], bottom', middle, top) == Rotated(old(argv[..]), bottom, middle, top)
    {
      var len := top - middle;
      bottom' := bottom + len;
      SwapBlocks(bottom, middle, len);
      SwapNearEnd(old(argv[..]), argv[..], bottom, middle, top, bottom');
    }

    /** exchange: the skipped non-options change places with the options processed since. */
    method Exchange()
      requires firstNonopt <= lastNonopt <= optind <= argv.Length
      modifies argv, `firstNonopt, `lastNonopt
      ensures argv[..] == Rotated(old(argv[..]), old(firstNonopt), old(lastNonopt), optind)
      ensures firstNonopt == old(firstNonopt) + (optind - old(lastNonopt)) && lastNonopt == optind
    {
      var bottom: nat, middle: nat, top: nat := firstNonopt, lastNonopt, optind;
      ghost var goal := Rotated(argv[..], bottom, middle, top);
      while top > middle && middle > bottom
        invariant bottom <= middle <= top <= argv.Length
        invariant firstNonopt == old(firstNonopt) && lastNonopt == old(lastNonopt)
        invariant Rotated(argv[..], bottom, middle, top) == goal
        decreases top - bottom
      {
        if top - middle > middle - bottom {
          top := SwapFar(bottom, middle, top);
        } else {
          bottom := SwapNear(bottom, middle, top);
        }
      }
      NothingToRotate(argv[..], bottom, middle, top);
      firstNonopt := firstNonopt + (optind - lastNonopt);
      lastNonopt := optind;
    }

    /** Looks at the next character of an option element. */
    method ShortOption(optstring: string) returns (step: Step)
      requires nextchar != "" && optind < argv.Length
      modifies `optind, `nextchar
      ensures var next := if old(optind) + 1 < argv.Length then Some(argv[old(optind) + 1]) else None;
        var n := UsedUp(optstring, old(nextchar)[0], old(nextchar)[1..], next);
        && step == Report(optstring, old(nextchar)[0], old(nextchar)[1..], next)
        && Reports(optstring, old(nextchar)[0], old(nextchar)[1..], next, step, optind - old(optind))
        && optind == old(optind) + n <= argv.Length && nextchar == if n == 0 then old(nextchar)[1..] else ""
      ensures nextchar != "" ==> optind == old(optind)
    {
      var c := nextchar[0];
      ReportsByKind(optstring, c, nextchar[1..], if optind + 1 < argv.Length then Some(argv[optind + 1]) else None);
      nextchar := nextchar[1..];
      var optarg := None;
      if nextchar == "" {
        optind := optind + 1;
      }
      match KindOf(optstring, c) {
        case Unknown =>
          step := Found('?', None);
        case Plain =>
          step := Found(c, None);
        case Optional =>
          if nextchar != "" {
            optarg := Some(nextchar);
            optind := optind + 1;
          }
          nextchar := "";
          step := Found(c, optarg);
        case Required =>
          if nextchar != "" {
            optarg := Some(nextchar);
            optind := optind + 1;
          } else if optind == argv.Length {
            c := if optstring != "" && optstring[0] == ':' then ':' else '?';
          } else {
            optarg := Some(argv[optind]);
            optind := optind + 1;
          }
          nextchar := "";
          step := Found(c, optarg);
      }
    }

    /** The layout and the parse go on by one report. */
    method NextOption(ghost goal: Parsed, optstring: string, ghost found: seq<Step>) returns (step: Step)
      requires Laid() && nextchar != "" && Following(goal, optstring, found)
      modifies `optind, `nextchar, `back
      ensures Laid() && Following(goal, optstring, found + [step]) && step.Found?
      ensures optind > old(optind) || (optind == old(optind) && nextchar != "" && |nextchar| < |old(nextchar)|)
    {
      ghost var n, next, step', back' := Reported(goal, optstring, argv[..], args, front, skipped, back, firstNonopt, lastNonopt,
                                                  optind, nextchar, found);
      step := ShortOption(optstring);
      back := back';
    }

    /** The records of skipped elements follow optind when the caller has moved it back. */
    method ClampToOptind()
      modifies `firstNonopt, `lastNonopt
      ensures lastNonopt == (if old(lastNonopt) > optind then optind else old(lastNonopt))
      ensures firstNonopt == (if old(firstNonopt) > optind then optind else old(firstNonopt))
    {
      if lastNonopt > optind {
        lastNonopt := optind;
      }
      if firstNonopt > optind {
        firstNonopt := optind;
      }
    }

    /** The options processed since the last skip are moved in front of the non-options. */
    method MoveOptionsFirst()
      requires Laid() && nextchar == ""
      modifies argv, `firstNonopt, `lastNonopt, `front, `back
      ensures |args| == argv.Length && LaidAs(argv[..], args, front, skipped, back, firstNonopt, optind, optind, nextchar)
      ensures front == old(front) + old(back) && back == []
    {
      ClampToOptind();
      if firstNonopt != lastNonopt && lastNonopt != optind {
        Exchange();
      } else if lastNonopt != optind {
        firstNonopt := optind;
      }
      Moved(old(argv[..]), argv[..], args, front, skipped, back, old(firstNonopt), old(lastNonopt), optind);
      front, back := front + back, [];
    }

    /** Skips non-options, which extend those skipped before. */
    method SkipNonOptions(ghost goal: Parsed, optstring: string, ghost found: seq<Step>)
      requires |args| == argv.Length && LaidAs(argv[..], args, front, skipped, back, firstNonopt, optind, optind, nextchar)
      requires back == [] && nextchar == "" && Tracked(goal, optstring, args, front, skipped, optind, "", found)
      modifies `optind, `lastNonopt, `skipped
      ensures Laid() && Tracked(goal, optstring, args, front, skipped, optind, "", found) && optind >= old(optind)
      ensures lastNonopt == optind <= argv.Length && (optind < argv.Length ==> !NonOption(argv[optind]))
    {
      while optind < argv.Length && NonOption(argv[optind])
        invariant LaidAs(argv[..], args, front, skipped, [], firstNonopt, optind, optind, "") && optind >= old(optind)
        invariant Tracked(goal, optstring, args, front, skipped, optind, "", found)
        decreases argv.Length - optind
      {
        SkippedOne(goal, optstring, argv[..], args, front, skipped, firstNonopt, optind, found);
        skipped := skipped + [args[optind]];
        optind := optind + 1;
      }
      lastNonopt := optind;
    }

    /** The element `--` counts as an option, and everything behind it as non-options. */
    method EndOfOptions(ghost goal: Parsed, optstring: string, ghost found: seq<Step>)
      requires Laid() && back == [] && nextchar == "" && lastNonopt == optind < argv.Length && argv[optind] == "--"
      requires Tracked(goal, optstring, args, front, skipped, optind, "", found)
      modifies argv, `optind, `firstNonopt, `lastNonopt, `front, `skipped
      ensures Laid() && Tracked(goal, optstring, args, front, skipped, optind, "", found) && lastNonopt == optind == argv.Length
    {
      optind := optind + 1;
      if firstNonopt != lastNonopt && lastNonopt != optind {
        Exchange();
      } else if firstNonopt == lastNonopt {
        firstNonopt := optind;
      }
      Ended(goal, optstring, old(argv[..]), argv[..], args, front, skipped, old(firstNonopt), old(optind), found);
      SkipToEnd(front + ["--"], skipped + args[old(optind) + 1..]);
    }

    method SkipToEnd(ghost options: seq<string>, ghost others: seq<string>)
      modifies `optind, `lastNonopt, `front, `skipped
      ensures lastNonopt == optind == argv.Length && front == options && skipped == others
    {
      front, skipped := options, others;
      lastNonopt := argv.Length;
      optind := argv.Length;
    }

    /** The arguments are a stable partition: options, their arguments and `--` first, then everything
        else, with optind at the boundary; and the reports are those of the goal. */
    ghost predicate Finished(goal: Parsed, found: seq<Step>)
      reads this, argv
    {
      && 0 < |args| && argv[..] == [args[0]] + goal.options + goal.others && optind == 1 + |goal.options|
      && found == goal.steps
    }

    /** _getopt_internal for short options, in the order that permutes the arguments. */
    method Next(ghost goal: Parsed, optstring: string, ghost found: seq<Step>) returns (step: Step)
      requires Permutes(optstring) && Laid() && Following(goal, optstring, found)
      modifies this, argv
      ensures if step.Done? then Finished(goal, found) else Laid() && Following(goal, optstring, found + [step])
      ensures step.Found? ==>
        || optind > old(optind)
        || (optind == old(optind) && nextchar != "" && (old(nextchar) != "" ==> |nextchar| < |old(nextchar)|))
      ensures step.Found? ==> optind <= argv.Length
    {
      if nextchar == "" {
        MoveOptionsFirst();
        SkipNonOptions(goal, optstring, found);
        if optind != argv.Length && argv[optind] == "--" {
          EndOfOptions(goal, optstring, found);
        }
        if optind == argv.Length {
          Complete(goal, optstring, argv[..], args, front, skipped, firstNonopt, found);
          if firstNonopt != lastNonopt {
            optind := firstNonopt;
          }
          return Done;
        }
        Entered(goal, optstring, argv[..], args, front, skipped, firstNonopt, optind, found);
        nextchar := argv[optind][1..];
      }
      step := NextOption(goal, optstring, found);
    }

    /** A whole run, call after call until the options are at an end. */
    method Run(optstring: string) returns (found: seq<Step>)
      requires optstring == "" || (optstring[0] != '-' && optstring[0] != '+')
      requires Laid() && Following(Parse(optstring, args[1..]), optstring, [])
      modifies this, argv
      ensures Finished(Parse(optstring, args[1..]), found)
      ensures |args| == 3 && |args[1]| == 2 && args[1][0] == '-' != args[1][1] ==>
        0 < optind && PairFound(optstring, args[1][1], args[2], found, optind - 1)
    {
      ghost var goal := Parse(optstring, args[1..]);
      if |args| == 3 && |args[1]| == 2 && args[1][0] == '-' != args[1][1] {
        PairParsed(optstring, args[1][1], args[2]);
        assert args[1] == ['-', args[1][1]] && args[1..] == [args[1], args[2]];
      }
      found := [];
      var step := Next(goal, optstring, found);
      while step.Found?
        invariant if step.Done? then Finished(goal, found) else Laid() && Following(goal, optstring, found + [step])
        decreases if step.Done? then 0 else 1, argv.Length - optind, if nextchar == "" then 1 else 0, |nextchar|
      {
        found := found + [step];
        step := Next(goal, optstring, found);
      }
    }
  }
}
