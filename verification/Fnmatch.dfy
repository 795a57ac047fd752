/** fnmatch.cpp with no flags set: a matcher that walks the pattern and backtracks. */
module Fnmatch {
  import opened Options
  import opened MachineInts
  import opened Glob
  import opened GlobLanguage

  const RANGE_MATCH: int := 1
  const RANGE_NOMATCH: int := 0
  const RANGE_ERROR: int := -1

  const FNM_NOMATCH: int := 1
  const FNM_NORES: int := 3

  /** What is parsed once `done` has been put before the rest. */
  function Before(done: seq<Range>, rest: Option<(seq<Range>, nat)>): Option<(seq<Range>, nat)> {
    match rest
    case None => None
    case Some((ranges, k)) => Some((done + ranges, k))
  }

  lemma BeforeNext(p: CString, i: nat, done: seq<Range>)
    ensures Item(p, i).Some? ==> i < Item(p, i).value.1 <= |p|
    ensures Item(p, i).None? ==> Before(done, Items(p, i)).None?
    ensures Item(p, i).Some? ==> var (range, j) := Item(p, i).value;
      if At(p, j) == CLOSE then Before(done, Items(p, i)) == Some((done + [range], j + 1))
      else Before(done, Items(p, i)) == Before(done + [range], Items(p, j))
  {
    if Item(p, i).Some? {
      var (range, j) := Item(p, i).value;
      if At(p, j) != CLOSE && Items(p, j).Some? {
        assert done + ([range] + Items(p, j).value.0) == done + [range] + Items(p, j).value.0;
      }
    }
  }

  lemma InRangesNext(done: seq<Range>, range: Range, c: i8)
    ensures InRanges(done + [range], c) <==> InRanges(done, c) || range.lo <= c <= range.hi
  {
    assert forall r :: r in done + [range] <==> r in done || r == range;
  }

  /** The body of the loop of rangematch: one character or range, of which first has
      been read, and whether test is in it. */
  method ReadItem(p: CString, pattern: nat, first: i8, test: i8) returns (failed: bool, hit: bool, next: nat)
    requires 0 < pattern <= |p| + 1 && first == At(p, pattern - 1)
    ensures match Item(p, pattern - 1)
      case None => failed
      case Some((range, j)) => !failed && next == j && (hit <==> range.lo <= test <= range.hi)
  {
    failed, hit, next := false, false, pattern;
    var c := first;
    if c == BACKSLASH {
      c := At(p, next);
      next := next + 1;
    }
    if c == 0 {
      return true, false, next;
    }
    var c2 := At(p, next + 1);
    if At(p, next) == DASH && c2 != 0 && c2 != CLOSE {
      next := next + 2;
      if c2 == BACKSLASH {
        c2 := At(p, next);
        next := next + 1;
      }
      if c2 == 0 {
        return true, false, next;
      }
      if c <= test && test <= c2 {
        hit := true;
      }
    } else if c == test {
      hit := true;
    }
  }

  /** Whether test is in the bracket whose inside begins at pattern, and where the
      pattern goes on; an error when the bracket is not closed. */
  method RangeMatch(p: CString, pattern: nat, test: i8) returns (res: int, newp: nat)
    requires pattern <= |p|
    ensures match Bracket(p, pattern)
      case None => res == RANGE_ERROR
      case Some((t, j)) => newp == j && res == if InSet(t, test) then RANGE_MATCH else RANGE_NOMATCH
  {
    hide Items, InRanges, Before, Item;
    var i := pattern;
    var negate := At(p, i) == BANG || At(p, i) == CARET;
    if negate {
      i := i + 1;
    }
    ghost var start, done: seq<Range> := i, [];
    NoRanges(p, start, test);
    var ok := false;
    var c := At(p, i);
    i := i + 1;
    while true
      invariant 0 < i <= |p| + 1 && c == At(p, i - 1)
      invariant Before([], Items(p, start)) == Before(done, Items(p, i - 1))
      invariant ok <==> InRanges(done, test)
      decreases |p| + 1 - i
    {
      BeforeNext(p, i - 1, done);
      var failed, hit, next := ReadItem(p, i, c, test);
      if failed {
        return RANGE_ERROR, i;
      }
      ghost var range := Item(p, i - 1).value.0;
      InRangesNext(done, range, test);
      done := done + [range];
      if hit {
        ok := true;
      }
      c := At(p, next);
      i := next + 1;
      if c == CLOSE {
        break;
      }
    }
    newp := i;
    res := if ok == negate then RANGE_NOMATCH else RANGE_MATCH;
  }

  lemma NoRanges(p: CString, i: nat, c: i8)
    ensures Before([], Items(p, i)) == Items(p, i) && !InRanges([], c)
  {
    if Items(p, i).Some? {
      assert [] + Items(p, i).value.0 == Items(p, i).value.0;
    }
  }

  // ----- the matcher -----

  /** strchr, or -1. */
  method StrChr(s: CString, subject: nat, c: i8) returns (k: int)
    requires subject <= |s| && c != 0
    ensures k == -1 ==> forall i :: subject <= i < |s| ==> s[i] != c
    ensures k != -1 ==> subject <= k < |s| && s[k] == c && forall i :: subject <= i < k ==> s[i] != c
  {
    k := subject;
    while k < |s|
      invariant subject <= k <= |s| && forall i :: subject <= i < k ==> s[i] != c
    {
      if s[k] == c {
        return k;
      }
      k := k + 1;
    }
    k := -1;
  }

  /** The first slash of either kind, or -1. */
  method FindSlash(s: CString, subject: nat) returns (k: int)
    requires subject <= |s|
    ensures k == -1 ==> forall i :: subject <= i < |s| ==> !IsSlash(s[i])
    ensures k != -1 ==> subject <= k < |s| && IsSlash(s[k]) && forall i :: subject <= i < k ==> !IsSlash(s[i])
  {
    var a := StrChr(s, subject, SLASH);
    var b := StrChr(s, subject, BACKSLASH);
    if a == -1 {
      return b;
    }
    if b == -1 {
      return a;
    }
    k := if a < b then a else b;
  }

  /** What a result says about the tokens: zero is a match within the budget of calls,
      and running out is reported only when the tokens need more calls than there are. */
  ghost predicate Answers(e: int, ts: seq<Token>, s: CString, j: nat, recurs: nat)
    requires j <= |s|
  {
    && (e == 0 || e == FNM_NOMATCH || e == FNM_NORES)
    && (e == 0 <==> Matches(ts, s, j) && Depth(ts) < recurs)
    && (e == FNM_NORES ==> Depth(ts) >= recurs)
  }

  /** A call for the tokens behind the first gave a result other than no match. */
  lemma AnswerPassedOn(e: int, ts: seq<Token>, s: CString, j: nat, k: nat, recurs: nat)
    requires j <= |s| && k <= |s| && ts != [] && (ts[0].AnyString? || ts[0].Folders?) && recurs > 0
    requires Answers(e, ts[1..], s, k, recurs - 1) && e != FNM_NOMATCH
    requires Matches(ts[1..], s, k) ==> Matches(ts, s, j)
    ensures Answers(e, ts, s, j, recurs)
  {}

  /** All calls for the tokens behind the first gave no match. */
  lemma NoAnswer(ts: seq<Token>, s: CString, j: nat, recurs: nat)
    requires j <= |s| && ts != [] && (ts[0].AnyString? || ts[0].Folders?) && recurs > 0
    requires Depth(ts[1..]) < recurs - 1 ==> !Matches(ts, s, j)
    ensures Answers(FNM_NOMATCH, ts, s, j, recurs)
  {}

  /** The pattern read so far took the string along: the rest has the same answers. */
  ghost predicate SameAnswers(ts: seq<Token>, us: seq<Token>, s: CString, j: nat, k: nat)
    requires j <= |s| && k <= |s|
  {
    (Matches(ts, s, j) <==> Matches(us, s, k)) && Depth(ts) == Depth(us)
  }

  ghost predicate IsOneChar(t: Token) { t.Literal? || t.AnyChar? || t.Set? }

  predicate Fits(t: Token, c: i8) {
    match t
    case Literal(d) => c == d
    case Set(_, _) => InSet(t, c)
    case _ => true
  }

  lemma OneChar(ts: seq<Token>, s: CString, j: nat)
    requires j <= |s| && ts != [] && IsOneChar(ts[0])
    ensures j == |s| || !Fits(ts[0], s[j]) ==> !Matches(ts, s, j)
    ensures j < |s| && Fits(ts[0], s[j]) ==> SameAnswers(ts, ts[1..], s, j, j + 1)
  {}

  lemma Refused(ts: seq<Token>, us: seq<Token>, s: CString, j: nat, k: nat, recurs: nat)
    requires j <= |s| && k <= |s| && SameAnswers(ts, us, s, j, k) && !Matches(us, s, k)
    ensures Answers(FNM_NOMATCH, ts, s, j, recurs)
  {}

  lemma AtEverything(ts: seq<Token>, s: CString, j: nat, recurs: nat)
    requires j <= |s| && recurs > 0 && ts == [Everything]
    ensures Answers(0, ts, s, j, recurs)
  {}

  lemma AtNothing(ts: seq<Token>, s: CString, j: nat, recurs: nat)
    requires j <= |s| && recurs > 0 && ts == [Nothing]
    ensures Answers(FNM_NOMATCH, ts, s, j, recurs)
  {}

  lemma AtPatternEnd(s: CString, j: nat, recurs: nat)
    requires j <= |s| && recurs > 0
    ensures Answers(if j == |s| then 0 else FNM_NOMATCH, [], s, j, recurs)
  {}

  /** A star followed by something other than a star. */
  method MatchAnyString(p: CString, pattern: nat, s: CString, subject0: nat, recurs: nat) returns (res: int)
    requires 0 < pattern < |p| && p[pattern - 1] == STAR && p[pattern] != STAR && subject0 <= |s|
    ensures Answers(res, Tokens(p, pattern - 1), s, subject0, recurs + 1)
    decreases recurs, 1
  {
    hide Matches, Depth, Answers;
    ghost var ts := Tokens(p, pattern - 1);
    assert ts[0] == AnyString && ts[1..] == Tokens(p, pattern);
    var subject := subject0;
    while subject < |s|
      invariant subject0 <= subject <= |s|
      invariant Depth(ts[1..]) < recurs ==> forall k :: subject0 <= k < subject ==> !Matches(ts[1..], s, k)
    {
      var e := FnmatchX(p, pattern, s, subject, recurs);
      if e != FNM_NOMATCH {
        AnyStringTakes(ts, s, subject0, subject);
        AnswerPassedOn(e, ts, s, subject0, subject, recurs + 1);
        return e;
      }
      AnswerIsNo(ts[1..], s, subject, recurs);
      subject := subject + 1;
    }
    NotAtEnd(p, pattern, s);
    AnyStringFails(ts, s, subject0);
    NoAnswer(ts, s, subject0, recurs + 1);
    res := FNM_NOMATCH;
  }

  lemma AnyStringTakes(ts: seq<Token>, s: CString, j: nat, k: nat)
    requires j <= k <= |s| && ts != [] && ts[0].AnyString?
    ensures Matches(ts[1..], s, k) ==> Matches(ts, s, j)
  {}

  lemma AnyStringFails(ts: seq<Token>, s: CString, j: nat)
    requires j <= |s| && ts != [] && ts[0].AnyString? && !Matches(ts[1..], s, |s|)
    ensures (forall k :: j <= k < |s| ==> !Matches(ts[1..], s, k)) ==> !Matches(ts, s, j)
  {}

  lemma AnswerIsNo(ts: seq<Token>, s: CString, j: nat, recurs: nat)
    requires j <= |s| && Answers(FNM_NOMATCH, ts, s, j, recurs)
    ensures Depth(ts) < recurs ==> !Matches(ts, s, j)
  {}

  /** Two stars and a slash: the rest is tried here and behind every slash. */
  method MatchFolders(p: CString, pattern: nat, s: CString, subject0: nat, recurs: nat) returns (res: int)
    requires 3 <= pattern <= |p| && p[pattern - 3] == p[pattern - 2] == STAR && IsSlash(p[pattern - 1]) && subject0 <= |s|
    ensures Answers(res, Tokens(p, pattern - 3), s, subject0, recurs + 1)
    decreases recurs, 1
  {
    hide Matches, Depth, Answers, TriedFolders, Tokens, IsSlash;
    ghost var ts := Tokens(p, pattern - 3);
    FoldersFirst(p, pattern);
    TriedNothing(ts[1..], s, subject0);
    var subject := subject0;
    while true
      invariant subject0 <= subject <= |s| && (subject == subject0 || IsSlash(s[subject - 1]))
      invariant Depth(ts[1..]) < recurs ==> TriedFolders(ts[1..], s, subject0, subject)
      decreases |s| - subject
    {
      var e := FnmatchX(p, pattern, s, subject, recurs);
      if e != FNM_NOMATCH {
        FoldersTake(ts, s, subject0, subject);
        AnswerPassedOn(e, ts, s, subject0, subject, recurs + 1);
        return e;
      }
      AnswerIsNo(ts[1..], s, subject, recurs);
      var slash := FindSlash(s, subject);
      TriedMore(ts[1..], s, subject0, subject, slash);
      if slash == -1 {
        break;
      }
      subject := slash + 1;
    }
    FoldersFail(ts, s, subject0);
    NoAnswer(ts, s, subject0, recurs + 1);
    res := FNM_NOMATCH;
  }

  /** No place before k that begins a folder, nor j itself, does it. */
  ghost predicate TriedFolders(us: seq<Token>, s: CString, j: nat, k: nat)
    requires k <= |s| + 1
  {
    forall m :: j <= m < k && (m == j || IsSlash(s[m - 1])) ==> !Matches(us, s, m)
  }

  lemma FoldersFirst(p: CString, pattern: nat)
    requires 3 <= pattern <= |p| && p[pattern - 3] == p[pattern - 2] == STAR && IsSlash(p[pattern - 1])
    ensures Tokens(p, pattern - 3) != [] && Tokens(p, pattern - 3)[0] == Folders
    ensures Tokens(p, pattern - 3)[1..] == Tokens(p, pattern)
  {}

  lemma TriedNothing(us: seq<Token>, s: CString, j: nat)
    requires j <= |s|
    ensures TriedFolders(us, s, j, j)
  {}

  lemma TriedMore(us: seq<Token>, s: CString, j: nat, k: nat, slash: int)
    requires j <= k <= |s| && -1 <= slash < |s| && (slash != -1 ==> k <= slash)
    requires forall i :: k <= i < (if slash == -1 then |s| else slash) ==> !IsSlash(s[i])
    ensures TriedFolders(us, s, j, k) && !Matches(us, s, k) ==>
      TriedFolders(us, s, j, if slash == -1 then |s| + 1 else slash + 1)
  {}

  lemma FoldersTake(ts: seq<Token>, s: CString, j: nat, k: nat)
    requires j <= k <= |s| && ts != [] && ts[0].Folders? && (k == j || IsSlash(s[k - 1]))
    ensures Matches(ts[1..], s, k) ==> Matches(ts, s, j)
  {
    if k > j {
      assert k == (k - 1) + 1;
    }
  }

  lemma FoldersFail(ts: seq<Token>, s: CString, j: nat)
    requires j <= |s| && ts != [] && ts[0].Folders?
    ensures TriedFolders(ts[1..], s, j, |s| + 1) ==> !Matches(ts, s, j)
  {
    assert TriedFolders(ts[1..], s, j, |s| + 1) ==>
      forall k :: j <= k < |s| && IsSlash(s[k]) ==> !Matches(ts[1..], s, k + 1);
  }

  /** One character of the string against a literal, a question mark or a bracket. */
  method MatchOne(p: CString, pattern0: nat, s: CString, subject: nat) returns (matched: bool, pattern: nat)
    requires pattern0 < |p| && p[pattern0] != STAR && subject <= |s|
    ensures pattern0 < pattern <= |p|
    ensures matched ==> subject < |s| && SameAnswers(Tokens(p, pattern0), Tokens(p, pattern), s, subject, subject + 1)
    ensures !matched ==> !Matches(Tokens(p, pattern0), s, subject)
  {
    hide Bracket, Matches, Depth, SameAnswers, InRanges;
    ghost var ts := Tokens(p, pattern0);
    OneChar(ts, s, subject);
    var c := At(p, pattern0);
    pattern := pattern0 + 1;
    if c == QUESTION {
      assert ts[1..] == Tokens(p, pattern);
      return At(s, subject) != 0, pattern;
    }
    if c == OPEN {
      if At(s, subject) == 0 {
        return false, pattern;
      }
      var r, newp := RangeMatch(p, pattern, At(s, subject));
      if r == RANGE_MATCH {
        assert ts[1..] == Tokens(p, newp);
        return true, newp;
      } else if r == RANGE_NOMATCH {
        return false, pattern;
      }
      // not closed: an ordinary character
    } else if c == BACKSLASH {
      c := At(p, pattern);
      pattern := pattern + 1;
      if c == 0 {
        c := BACKSLASH;
        pattern := pattern - 1;
      }
    }
    assert ts[0] == Literal(c) && ts[1..] == Tokens(p, pattern);
    matched := c == At(s, subject);
  }

  /** The case of a star: the answer is that of the rest of the pattern. */
  method MatchStar(p: CString, pattern0: nat, s: CString, subject: nat, recurs: nat) returns (res: int)
    requires 0 < pattern0 <= |p| && p[pattern0 - 1] == STAR && subject <= |s|
    ensures Answers(res, Tokens(p, pattern0 - 1), s, subject, recurs + 1)
    decreases recurs, 2
  {
    hide Matches, Depth, Answers;
    var pattern := pattern0;
    ghost var us := Tokens(p, pattern0 - 1);
    var c := At(p, pattern);
    if c == STAR {
      pattern := pattern + 1;
      c := At(p, pattern);
      if c == 0 {
        AtEverything(us, s, subject, recurs + 1);
        return 0;
      }
      if c != SLASH && c != BACKSLASH {
        AtNothing(us, s, subject, recurs + 1);
        return FNM_NOMATCH;
      }
      pattern := pattern + 1;
      res := MatchFolders(p, pattern, s, subject, recurs);
      return;
    }
    if c == 0 {
      AtEverything(us, s, subject, recurs + 1);
      return 0;
    }
    res := MatchAnyString(p, pattern, s, subject, recurs);
  }

  method FnmatchX(p: CString, pattern0: nat, s: CString, subject0: nat, recurs0: nat) returns (res: int)
    requires pattern0 <= |p| && subject0 <= |s|
    ensures Answers(res, Tokens(p, pattern0), s, subject0, recurs0)
    decreases recurs0, 0
  {
    hide Matches, Depth, Answers, SameAnswers;
    ghost var ts := Tokens(p, pattern0);
    if recurs0 == 0 {
      OutOfBudget(ts, s, subject0);
      return FNM_NORES;
    }
    var recurs := recurs0 - 1;
    var pattern: nat, subject: nat := pattern0, subject0;
    SameAtFirst(ts, s, subject0);
    while true
      invariant pattern <= |p| && subject <= |s|
      invariant SameAnswers(ts, Tokens(p, pattern), s, subject0, subject)
      decreases |p| - pattern
    {
      ghost var us := Tokens(p, pattern);
      var c := At(p, pattern);
      if c == 0 {
        AtPatternEnd(s, subject, recurs0);
        Same(ts, us, s, subject0, subject, recurs0);
        return if At(s, subject) == 0 then 0 else FNM_NOMATCH;
      }
      if c == STAR {
        Same(ts, us, s, subject0, subject, recurs0);
        res := MatchStar(p, pattern + 1, s, subject, recurs);
        return;
      }
      var matched;
      matched, pattern := MatchOne(p, pattern, s, subject);
      if !matched {
        Refused(ts, us, s, subject0, subject, recurs0);
        return FNM_NOMATCH;
      }
      SameFurther(ts, us, Tokens(p, pattern), s, subject0, subject);
      subject := subject + 1;
    }
  }

  /** Whatever answers for the rest answers for the whole. */
  lemma Same(ts: seq<Token>, us: seq<Token>, s: CString, j: nat, k: nat, recurs: nat)
    requires j <= |s| && k <= |s| && SameAnswers(ts, us, s, j, k)
    ensures forall e: int :: Answers(e, us, s, k, recurs) ==> Answers(e, ts, s, j, recurs)
  {}

  lemma SameFurther(ts: seq<Token>, us: seq<Token>, vs: seq<Token>, s: CString, j: nat, k: nat)
    requires j <= |s| && k < |s| && SameAnswers(ts, us, s, j, k) && SameAnswers(us, vs, s, k, k + 1)
    ensures SameAnswers(ts, vs, s, j, k + 1)
  {}

  lemma OutOfBudget(ts: seq<Token>, s: CString, j: nat)
    requires j <= |s|
    ensures Answers(FNM_NORES, ts, s, j, 0)
  {}

  lemma SameAtFirst(ts: seq<Token>, s: CString, j: nat)
    requires j <= |s|
    ensures SameAnswers(ts, ts, s, j, j)
  {}

  /** True exactly when the string is what the pattern describes and the pattern needs
      at most 63 calls within calls, which every pattern of at most 63 stars does. */
  method FnMatch(p: CString, s: CString) returns (matched: bool)
    ensures matched <==> Matches(Tokens(p, 0), s, 0) && Depth(Tokens(p, 0)) <= 63
    ensures Stars(p, 0) <= 63 ==> (matched <==> Matches(Tokens(p, 0), s, 0))
  {
    DepthWithinStars(p, 0);
    var res := FnmatchX(p, 0, s, 0, 64);
    matched := 0 == res;
  }

  /** In terms of the pattern as it is written. */
  method MatchWritten(ps: seq<Piece>, s: CString) returns (matched: bool)
    requires Written(ps)
    ensures matched <==> Describes(ps, s) && Nesting(ps) <= 63
  {
    hide Describes, Written, Tokens, Matches, Depth;
    WrittenIsRead(ps);
    SameMeaning(ps, s, 0);
    SameDepth(ps);
    assert s[0..] == s;
    matched := FnMatch(Write(ps), s);
  }

  /** [!c] and [c], in character codes. */
  method MatchBracket(negate: bool, c: Char, s: CString) returns (matched: bool)
    requires c != 92 && (negate || (c != 33 && c != 94))
    ensures matched <==> |s| == 1 && (s[0] == c) != negate
  {
    var p: CString := if negate then [91, 33, c, 93] else [91, c, 93];
    BracketMeaning(negate, c, s);
    matched := FnMatch(p, s);
  }

  lemma BracketMeaning(negate: bool, c: Char, s: CString)
    requires c != 92 && (negate || (c != 33 && c != 94))
    ensures var p: CString := if negate then [91, 33, c, 93] else [91, c, 93];
      (Matches(Tokens(p, 0), s, 0) <==> |s| == 1 && (s[0] == c) != negate) && Depth(Tokens(p, 0)) == 0
  {
    var es := [One(Mark.Plain(c))];
    var ps := [if negate then NoneOf(33, es) else OneOf(es)];
    hide Tokens, Matches;
    assert WriteEntries(es) == [c, 93];
    assert Write(ps) == if negate then [91, 33, c, 93] else [91, c, 93];
    WrittenIsRead(ps);
    SameMeaning(ps, s, 0);
    SameDepth(ps);
    assert s[0..] == s && ps[1..] == [] && TokensOf(ps)[1..] == [];
    if s != [] {
      OneListed(c, s[0]);
    }
  }

  lemma OneListed(c: Char, x: i8)
    ensures Listed([One(Mark.Plain(c))], x) <==> x == c
  {
    assert One(Mark.Plain(c)) in [One(Mark.Plain(c))];
  }

  // ----- the budget -----

  function Stars(p: CString, i: nat): nat
    decreases |p| - i
  {
    if i >= |p| then 0 else (if p[i] == STAR then 1 else 0) + Stars(p, i + 1)
  }

  lemma {:induction false} StarsFall(p: CString, i: nat, j: nat)
    requires i <= j
    ensures Stars(p, j) <= Stars(p, i)
    decreases j - i
  {
    if i < j {
      StarsFall(p, i + 1, j);
    }
  }

  /** A pattern with at most 63 stars is always within the budget. */
  lemma {:induction false} DepthWithinStars(p: CString, i: nat)
    requires i <= |p|
    ensures Depth(Tokens(p, i)) <= Stars(p, i)
    decreases |p| - i
  {
    hide Bracket;
    if i < |p| {
      var ts := Tokens(p, i);
      if p[i] == STAR && At(p, i + 1) == STAR {
        if IsSlash(At(p, i + 2)) {
          DepthWithinStars(p, i + 3);
          StarsFall(p, i + 1, i + 3);
          assert ts[1..] == Tokens(p, i + 3);
        }
      } else if p[i] == OPEN && Bracket(p, i + 1).Some? {
        var j := Bracket(p, i + 1).value.1;
        DepthWithinStars(p, j);
        StarsFall(p, i, j);
        assert ts[1..] == Tokens(p, j);
      } else if p[i] == BACKSLASH && i + 1 < |p| {
        DepthWithinStars(p, i + 2);
        StarsFall(p, i, i + 2);
        assert ts[1..] == Tokens(p, i + 2);
      } else {
        DepthWithinStars(p, i + 1);
        assert ts[0] != Everything ==> ts[1..] == Tokens(p, i + 1);
      }
    }
  }

  const LETTER: i8 := 97

  function StarLetters(n: nat): CString { seq(2 * n, i => if i % 2 == 0 then STAR else LETTER) }

  function Letters(n: nat): CString { seq(n, i => LETTER) }

  lemma {:induction false} StarLettersMatch(n: nat, m: nat)
    requires m <= n
    ensures Matches(Tokens(StarLetters(n), 2 * m), Letters(n), m)
    ensures Depth(Tokens(StarLetters(n), 2 * m)) == n - m
    decreases n - m
  {
    var p, s := StarLetters(n), Letters(n);
    if m < n {
      StarLettersMatch(n, m + 1);
      var ts, us, vs := Tokens(p, 2 * m), Tokens(p, 2 * m + 1), Tokens(p, 2 * m + 2);
      assert p[2 * m] == STAR && p[2 * m + 1] == LETTER;
      assert us == [Literal(LETTER)] + vs && us[1..] == vs;
      assert ts == [AnyString] + us && ts[1..] == us;
      assert Matches(us, s, m);
    }
  }

  /** From 64 stars on the budget shows: a pattern that describes a string is refused. */
  method BudgetExample() returns (matched: bool)
    ensures !matched && Matches(Tokens(StarLetters(64), 0), Letters(64), 0)
  {
    StarLettersMatch(64, 0);
    matched := FnMatch(StarLetters(64), Letters(64));
  }
}
