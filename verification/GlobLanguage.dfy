/** What written patterns mean, in character codes and apart from how they are cut into
    tokens: a small language of patterns, how it is written, and what it describes. */
module GlobLanguage {
  import opened Options
  import opened MachineInts
  import opened Glob

  type Char = c: i8 | c != 0 witness 1

  /** A character as it stands, or behind a backslash. */
  datatype Mark = Plain(c: Char) | Quoted(c: Char)

  /** What a bracket lists. */
  datatype Entry = One(lo: Mark) | Span(lo: Mark, hi: Mark)

  datatype Piece =
    | Just(mark: Mark)
    | AnyOne                                         // ?
    | OneOf(entries: seq<Entry>)                     // [...]
    | NoneOf(sign: Char, entries: seq<Entry>)        // [!...] and [^...]
    | Many                                           // *
    | Deep(slash: Char)                              // **/ and **\
    | All                                            // ** at the end

  // ----- how it is written -----

  function WriteMark(m: Mark): CString {
    match m
    case Plain(c) => [c]
    case Quoted(c) => [92, c]
  }

  function WriteEntry(e: Entry): CString {
    match e
    case One(lo) => WriteMark(lo)
    case Span(lo, hi) => WriteMark(lo) + [45] + WriteMark(hi)
  }

  function WriteEntries(es: seq<Entry>): CString {
    if es == [] then [93] else WriteEntry(es[0]) + WriteEntries(es[1..])
  }

  function WritePiece(piece: Piece): CString {
    match piece
    case Just(m) => WriteMark(m)
    case AnyOne => [63]
    case OneOf(es) => [91] + WriteEntries(es)
    case NoneOf(sign, es) => [91, sign] + WriteEntries(es)
    case Many => [42]
    case Deep(slash) => [42, 42, slash]
    case All => [42, 42]
  }

  function Write(ps: seq<Piece>): CString {
    if ps == [] then [] else WritePiece(ps[0]) + Write(ps[1..])
  }

  /** A listed character may stand as it is unless it would be read as something else:
      a backslash, a closing bracket or a dash that is not the first. */
  predicate WrittenEntry(e: Entry, first: bool) {
    && (e.lo.Plain? ==> e.lo.c != 92 && (first || (e.lo.c != 93 && e.lo.c != 45)))
    && (e.Span? && e.hi.Plain? ==> e.hi.c != 92 && e.hi.c != 93)
  }

  predicate WrittenEntries(es: seq<Entry>) {
    es != [] && forall i :: 0 <= i < |es| ==> WrittenEntry(es[i], i == 0)
  }

  /** The same for pieces, of which another follows or not: a star, question mark, opening
      bracket or backslash stands as it is only where a backslash is the last. */
  predicate WrittenPiece(piece: Piece, rest: seq<Piece>) {
    match piece
    case Just(m) => m.Plain? ==> m.c !in {42, 63, 91} && (m.c == 92 ==> rest == [])
    case AnyOne => true
    case OneOf(es) => WrittenEntries(es) && (es[0].lo.Plain? ==> es[0].lo.c !in {33, 94})
    case NoneOf(sign, es) => WrittenEntries(es) && sign in {33, 94}
    case Many => rest != [] ==> !rest[0].Many? && !rest[0].Deep? && !rest[0].All?
    case Deep(slash) => slash in {47, 92}
    case All => rest == []
  }

  predicate Written(ps: seq<Piece>) {
    ps != [] ==> WrittenPiece(ps[0], ps[1..]) && Written(ps[1..])
  }

  // ----- what it describes -----

  predicate Listed(es: seq<Entry>, x: i8) {
    exists e :: e in es && e.lo.c <= x <= if e.Span? then e.hi.c else e.lo.c
  }

  ghost predicate Describes(ps: seq<Piece>, s: seq<i8>)
    decreases |ps|
  {
    if ps == [] then s == []
    else match ps[0]
      case Just(m) => s != [] && s[0] == m.c && Describes(ps[1..], s[1..])
      case AnyOne => s != [] && Describes(ps[1..], s[1..])
      case OneOf(es) => s != [] && Listed(es, s[0]) && Describes(ps[1..], s[1..])
      case NoneOf(_, es) => s != [] && !Listed(es, s[0]) && Describes(ps[1..], s[1..])
      case Many => exists k :: 0 <= k <= |s| && Describes(ps[1..], s[k..])
      case Deep(_) => Describes(ps[1..], s) ||
        exists k :: 0 <= k < |s| && (s[k] == 47 || s[k] == 92) && Describes(ps[1..], s[k + 1..])
      case All => true
  }

  /** Stars and folders with something behind them. */
  function Nesting(ps: seq<Piece>): nat {
    if ps == [] then 0
    else (if ps[0].Deep? || (ps[0].Many? && |ps| > 1) then 1 else 0) + Nesting(ps[1..])
  }

  // ----- reading begins anywhere -----

  lemma AtBehind(a: CString, p: CString, i: nat)
    ensures At(a + p, |a| + i) == At(p, i)
  {}

  lemma QuotedBehind(a: CString, p: CString, i: nat)
    ensures var (c, j) := Glob.Quoted(p, i); Glob.Quoted(a + p, |a| + i) == (c, |a| + j)
  {
    AtBehind(a, p, i);
    AtBehind(a, p, i + 1);
  }

  lemma ItemBehind(a: CString, p: CString, i: nat)
    ensures Item(a + p, |a| + i) ==
      match Item(p, i) case None => None case Some((r, j)) => Some((r, |a| + j))
  {
    hide Glob.Quoted, At;
    QuotedBehind(a, p, i);
    var j := Glob.Quoted(p, i).1;
    AtBehind(a, p, j);
    AtBehind(a, p, j + 1);
    QuotedBehind(a, p, j + 1);
  }

  lemma {:induction false} ItemsBehind(a: CString, p: CString, i: nat)
    ensures Items(a + p, |a| + i) ==
      match Items(p, i) case None => None case Some((r, j)) => Some((r, |a| + j))
    decreases |p| - i
  {
    hide Item, At;
    ItemBehind(a, p, i);
    if Item(p, i).Some? {
      ItemEnds(p, i);
      var j := Item(p, i).value.1;
      AtBehind(a, p, j);
      ItemsBehind(a, p, j);
    }
  }

  lemma ItemEnds(p: CString, i: nat)
    requires Item(p, i).Some?
    ensures i < Item(p, i).value.1 <= |p|
  {}

  lemma BracketBehind(a: CString, p: CString, i: nat)
    ensures Bracket(a + p, |a| + i) ==
      match Bracket(p, i) case None => None case Some((t, j)) => Some((t, |a| + j))
  {
    hide Items, At;
    AtBehind(a, p, i);
    ItemsBehind(a, p, i);
    ItemsBehind(a, p, i + 1);
  }

  /** Cutting goes the same way with something in front. */
  predicate SameBehind(a: CString, p: CString, i: nat) {
    i <= |p| ==> Tokens(a + p, |a| + i) == Tokens(p, i)
  }

  lemma StarBehind(a: CString, p: CString, i: nat)
    requires i < |p| && p[i] == STAR && SameBehind(a, p, i + 1) && SameBehind(a, p, i + 3)
    ensures SameBehind(a, p, i)
  {
    hide At;
    AtBehind(a, p, i + 1);
    AtBehind(a, p, i + 2);
    AtEnd(p, i + 1);
    AtEnd(p, i + 2);
  }

  lemma AtEnd(p: CString, i: nat)
    ensures At(p, i) != 0 <==> i < |p|
  {}

  lemma OpenBehind(a: CString, p: CString, i: nat)
    requires i < |p| && p[i] == OPEN && SameBehind(a, p, i + 1)
    requires Bracket(p, i + 1).Some? ==> SameBehind(a, p, Bracket(p, i + 1).value.1)
    ensures SameBehind(a, p, i)
  {
    hide Bracket, At;
    BracketBehind(a, p, i + 1);
  }

  lemma OtherBehind(a: CString, p: CString, i: nat)
    requires i < |p| && p[i] != STAR && p[i] != OPEN && SameBehind(a, p, i + 1) && SameBehind(a, p, i + 2)
    ensures SameBehind(a, p, i)
  {
    hide Bracket, At;
  }

  lemma {:induction false} TokensBehind(a: CString, p: CString, i: nat)
    requires i <= |p|
    ensures SameBehind(a, p, i)
    decreases |p| - i
  {
    hide Bracket, Tokens;
    if i == |p| {
      NothingBehind(a, p);
    } else {
      TokensBehind(a, p, i + 1);
      if i + 2 <= |p| {
        TokensBehind(a, p, i + 2);
      }
      if i + 3 <= |p| {
        TokensBehind(a, p, i + 3);
      }
      if p[i] == STAR {
        StarBehind(a, p, i);
      } else if p[i] == OPEN {
        if Bracket(p, i + 1).Some? {
          BracketEnds(p, i + 1);
          TokensBehind(a, p, Bracket(p, i + 1).value.1);
        }
        OpenBehind(a, p, i);
      } else {
        OtherBehind(a, p, i);
      }
    }
  }

  lemma NothingBehind(a: CString, p: CString)
    ensures SameBehind(a, p, |p|)
  {}

  lemma BracketEnds(p: CString, i: nat)
    requires Bracket(p, i).Some?
    ensures i < Bracket(p, i).value.1 <= |p|
  {}

  // ----- what is written is read -----

  function RangeOf(e: Entry): Range { Range(e.lo.c, if e.Span? then e.hi.c else e.lo.c) }

  function RangesOf(es: seq<Entry>): (rs: seq<Range>)
    ensures |rs| == |es|
  {
    seq(|es|, i requires 0 <= i < |es| => RangeOf(es[i]))
  }

  /** The token of a piece; a star at the end is a token of its own. */
  function TokenOf(piece: Piece, last: bool): Token {
    match piece
    case Just(m) => Literal(m.c)
    case AnyOne => AnyChar
    case OneOf(es) => Set(false, RangesOf(es))
    case NoneOf(_, es) => Set(true, RangesOf(es))
    case Many => if last then Everything else AnyString
    case Deep(_) => Folders
    case All => Everything
  }

  function TokensOf(ps: seq<Piece>): seq<Token> {
    if ps == [] then [] else [TokenOf(ps[0], |ps| == 1)] + TokensOf(ps[1..])
  }

  lemma MarkRead(m: Mark, t: CString)
    requires m.Plain? ==> m.c != 92
    ensures Glob.Quoted(WriteMark(m) + t, 0) == (m.c, |WriteMark(m)|)
  {}

  /** What begins a later entry, or ends the list, is not a dash. */
  lemma NoDash(es: seq<Entry>, t: CString)
    requires forall i :: 0 <= i < |es| ==> WrittenEntry(es[i], false)
    ensures At(WriteEntries(es) + t, 0) != 45
    ensures At(WriteEntries(es) + t, 0) == 93 <==> es == []
  {}

  lemma EntryRead(e: Entry, first: bool, t: CString)
    requires WrittenEntry(e, first) && At(t, 0) != 45
    ensures Item(WriteEntry(e) + t, 0) == Some((RangeOf(e), |WriteEntry(e)|))
  {
    var w := WriteMark(e.lo);
    match e
    case One(lo) =>
      MarkRead(lo, t);
      AtBehind(w, t, 0);
    case Span(lo, hi) =>
      var v := WriteMark(hi);
      var r: CString := [45] + v + t;
      assert WriteEntry(e) + t == w + r;
      MarkRead(lo, r);
      AtBehind(w, r, 0);
      AtBehind(w, r, 1);
      assert w + r == (w + [45]) + (v + t);
      MarkRead(hi, t);
      QuotedBehind(w + [45], v + t, 0);
  }

  lemma {:induction false} EntriesRead(es: seq<Entry>, first: bool, t: CString)
    requires es != [] && WrittenEntry(es[0], first) && forall i :: 1 <= i < |es| ==> WrittenEntry(es[i], false)
    ensures Items(WriteEntries(es) + t, 0) == Some((RangesOf(es), |WriteEntries(es)|))
  {
    hide Item, WriteEntry, At;
    var e, w := es[0], WriteEntry(es[0]);
    var r: CString := WriteEntries(es[1..]) + t;
    assert WriteEntries(es) + t == w + r;
    NoDash(es[1..], t);
    EntryRead(e, first, r);
    AtBehind(w, r, 0);
    if |es| == 1 {
      assert RangesOf(es) == [RangeOf(e)];
    } else {
      EntriesRead(es[1..], false, t);
      ItemsBehind(w, r, 0);
      assert RangesOf(es) == [RangeOf(e)] + RangesOf(es[1..]);
    }
  }

  lemma BracketRead(negate: bool, sign: Char, es: seq<Entry>, t: CString)
    requires WrittenEntries(es) && (if negate then sign in {33, 94} else es[0].lo.Plain? ==> es[0].lo.c !in {33, 94})
    ensures var w: CString := if negate then [sign] + WriteEntries(es) else WriteEntries(es);
      Bracket(w + t, 0) == Some((Set(negate, RangesOf(es)), |w|))
  {
    hide Items;
    EntriesRead(es, true, t);
    var r: CString := WriteEntries(es) + t;
    if negate {
      assert [sign] + WriteEntries(es) + t == [sign] + r;
      ItemsBehind([sign], r, 0);
    } else {
      assert WriteEntries(es) == WriteEntry(es[0]) + WriteEntries(es[1..]);
    }
  }

  /** One token is read where one piece was written, and reading goes on behind it. */
  ghost predicate ReadFirst(ps: seq<Piece>)
    requires ps != []
  {
    Tokens(Write(ps), 0) == [TokenOf(ps[0], |ps| == 1)] + Tokens(Write(ps[1..]), 0)
  }

  lemma BracketPiece(ps: seq<Piece>)
    requires ps != [] && Written(ps) && (ps[0].OneOf? || ps[0].NoneOf?)
    ensures ReadFirst(ps)
  {
    hide Bracket, Tokens, WriteEntries, RangesOf, WrittenEntries;
    var t := Write(ps[1..]);
    FirstListed(ps[0].entries);
    if ps[0].NoneOf? {
      var w: CString := [ps[0].sign] + WriteEntries(ps[0].entries);
      BracketBetween(true, ps[0].sign, ps[0].entries, w, t);
      assert Write(ps) == [91] + (w + t);
    } else {
      var w := WriteEntries(ps[0].entries);
      BracketBetween(false, 33, ps[0].entries, w, t);
      assert Write(ps) == [91] + (w + t);
    }
  }

  lemma FirstListed(es: seq<Entry>)
    requires WrittenEntries(es)
    ensures es != []
  {}

  lemma BracketBetween(negate: bool, sign: Char, es: seq<Entry>, w: CString, t: CString)
    requires WrittenEntries(es) && es != [] && (if negate then sign in {33, 94} else es[0].lo.Plain? ==> es[0].lo.c !in {33, 94})
    requires w == if negate then [sign] + WriteEntries(es) else WriteEntries(es)
    ensures Tokens([91] + (w + t), 0) == [Set(negate, RangesOf(es))] + Tokens(t, 0)
  {
    hide Bracket, Tokens, WriteEntries, RangesOf, WrittenEntries;
    BracketRead(negate, sign, es, t);
    BracketBehind([91], w + t, 0);
    assert [91] + (w + t) == ([91] + w) + t;
    TokensBehind([91] + w, t, 0);
    OpenTokens([91] + (w + t));
  }

  lemma OpenTokens(p: CString)
    requires p != [] && p[0] == 91 && Bracket(p, 1).Some?
    ensures Tokens(p, 0) == [Bracket(p, 1).value.0] + Tokens(p, Bracket(p, 1).value.1)
  {}

  lemma WriteStarts(ps: seq<Piece>)
    requires ps != []
    ensures Write(ps) != []
    ensures WrittenPiece(ps[0], ps[1..]) && !ps[0].Many? && !ps[0].Deep? && !ps[0].All? ==> Write(ps)[0] != 42
  {}

  lemma StarPiece(ps: seq<Piece>)
    requires ps != [] && Written(ps) && (ps[0].Many? || ps[0].Deep? || ps[0].All?)
    ensures ReadFirst(ps)
  {
    hide Bracket;
    var w, t := WritePiece(ps[0]), Write(ps[1..]);
    if |ps| > 1 {
      WriteStarts(ps[1..]);
    }
    hide Tokens;
    TokensBehind(w, t, 0);
    StarTokens(w + t, ps[0], |ps| == 1);
  }

  lemma StarTokens(p: CString, piece: Piece, last: bool)
    requires piece.Many? || (piece.Deep? && piece.slash in {47, 92}) || (piece.All? && last)
    requires WritePiece(piece) <= p && (last && !piece.Deep? ==> p == WritePiece(piece))
    requires piece.Many? && !last ==> |p| > 1 && p[1] != 42
    ensures Tokens(p, 0) == [TokenOf(piece, last)] + Tokens(p, |WritePiece(piece)|)
  {
    hide Bracket;
    assert p[0] == 42;
    assert !piece.Many? ==> p[1] == 42;
    assert piece.Deep? ==> p[2] == piece.slash;
  }

  lemma PlainPiece(ps: seq<Piece>)
    requires ps != [] && Written(ps) && (ps[0].Just? || ps[0].AnyOne?)
    ensures ReadFirst(ps)
  {
    hide Bracket, Tokens;
    var w, t := WritePiece(ps[0]), Write(ps[1..]);
    TokensBehind(w, t, 0);
    PlainTokens(w + t, ps[0], ps[1..]);
  }

  lemma PlainTokens(p: CString, piece: Piece, rest: seq<Piece>)
    requires WrittenPiece(piece, rest) && (piece.Just? || piece.AnyOne?) && p == WritePiece(piece) + Write(rest)
    ensures Tokens(p, 0) == [TokenOf(piece, rest == [])] + Tokens(p, |WritePiece(piece)|)
  {
    hide Bracket;
  }

  /** A written pattern is cut back into its pieces. */
  lemma {:induction false} WrittenIsRead(ps: seq<Piece>)
    requires Written(ps)
    ensures Tokens(Write(ps), 0) == TokensOf(ps)
  {
    hide Tokens, WrittenPiece, WritePiece, TokenOf;
    if ps == [] {
      NoTokens();
    } else {
      FirstIsRead(ps);
      WrittenIsRead(ps[1..]);
    }
  }

  lemma NoTokens()
    ensures Tokens([], 0) == []
  {}

  lemma FirstIsRead(ps: seq<Piece>)
    requires ps != [] && Written(ps)
    ensures ReadFirst(ps)
  {
    hide ReadFirst, WrittenPiece, Written, Tokens;
    match ps[0]
    case Just(_) => PlainPiece(ps);
    case AnyOne => PlainPiece(ps);
    case OneOf(_) => BracketPiece(ps);
    case NoneOf(_, _) => BracketPiece(ps);
    case Many => StarPiece(ps);
    case Deep(_) => StarPiece(ps);
    case All => StarPiece(ps);
  }

  // ----- what is read describes the same -----

  lemma SameSet(es: seq<Entry>, c: i8)
    ensures InRanges(RangesOf(es), c) <==> Listed(es, c)
  {
    if InRanges(RangesOf(es), c) {
      var r :| r in RangesOf(es) && r.lo <= c <= r.hi;
      var i :| 0 <= i < |es| && RangesOf(es)[i] == r;
      assert es[i] in es;
    }
    if Listed(es, c) {
      var e :| e in es && e.lo.c <= c <= if e.Span? then e.hi.c else e.lo.c;
      var i :| 0 <= i < |es| && es[i] == e;
      assert RangesOf(es)[i] == RangeOf(e) && RangesOf(es)[i] in RangesOf(es);
    }
  }

  /** The pieces behind the first and their tokens mean the same from every place on. */
  ghost predicate SameBehindFirst(ps: seq<Piece>, s: CString)
    requires ps != []
  {
    forall k :: 0 <= k <= |s| ==> (Matches(TokensOf(ps[1..]), s, k) <==> Describes(ps[1..], s[k..]))
  }

  lemma {:induction false} SameMeaning(ps: seq<Piece>, s: CString, j: nat)
    requires Written(ps) && j <= |s|
    ensures Matches(TokensOf(ps), s, j) <==> Describes(ps, s[j..])
    decreases |ps|
  {
    hide InRanges, Listed, RangesOf, WrittenPiece, Matches, Describes;
    if ps == [] {
      SameEnd(s, j);
    } else {
      forall k | 0 <= k <= |s|
        ensures Matches(TokensOf(ps[1..]), s, k) <==> Describes(ps[1..], s[k..])
      {
        SameMeaning(ps[1..], s, k);
      }
      assert TokensOf(ps)[1..] == TokensOf(ps[1..]);
      if ps[0].Many? && |ps| == 1 {
        LastStar(ps, s, j);
      } else if ps[0].Many? {
        SameMany(ps, s, j);
      } else if ps[0].Deep? {
        SameDeep(ps, s, j);
      } else {
        SameChar(ps, s, j);
      }
    }
  }

  lemma SameEnd(s: CString, j: nat)
    requires j <= |s|
    ensures Matches(TokensOf([]), s, j) <==> Describes([], s[j..])
  {}

  lemma LastStar(ps: seq<Piece>, s: CString, j: nat)
    requires j <= |s| && ps == [Many]
    ensures Matches(TokensOf(ps), s, j) && Describes(ps, s[j..])
  {
    var u := s[j..];
    assert u[|u|..] == [] && ps[1..] == [];
  }

  lemma SameMany(ps: seq<Piece>, s: CString, j: nat)
    requires j <= |s| && |ps| > 1 && ps[0].Many? && TokensOf(ps)[1..] == TokensOf(ps[1..]) && SameBehindFirst(ps, s)
    ensures Matches(TokensOf(ps), s, j) <==> Describes(ps, s[j..])
  {
    hide TokensOf, Matches, Describes;
    var u, us := s[j..], TokensOf(ps[1..]);
    FirstToken(ps);
    MatchesMany(TokensOf(ps), s, j);
    DescribesMany(ps, u);
    if Matches(TokensOf(ps), s, j) {
      var k :| j <= k <= |s| && Matches(us, s, k);
      assert s[k..] == u[k - j..];
    }
    if Describes(ps, u) {
      var k :| 0 <= k <= |u| && Describes(ps[1..], u[k..]);
      assert u[k..] == s[j + k..];
      assert Matches(us, s, j + k);
    }
  }

  lemma MatchesMany(ts: seq<Token>, s: CString, j: nat)
    requires j <= |s| && ts != [] && ts[0].AnyString?
    ensures Matches(ts, s, j) <==> exists k :: j <= k <= |s| && Matches(ts[1..], s, k)
  {
    if k :| j <= k <= |s| && Matches(ts[1..], s, k) {
      ManyTakes(ts, s, j, k);
      assert Matches(ts[1..], s, k);
    } else {
      ManyFails(ts, s, j);
    }
  }

  lemma ManyTakes(ts: seq<Token>, s: CString, j: nat, k: nat)
    requires j <= k <= |s| && ts != [] && ts[0].AnyString? && Matches(ts[1..], s, k)
    ensures Matches(ts, s, j)
  {}

  lemma ManyFails(ts: seq<Token>, s: CString, j: nat)
    requires j <= |s| && ts != [] && ts[0].AnyString? && forall k :: j <= k <= |s| ==> !Matches(ts[1..], s, k)
    ensures !Matches(ts, s, j)
  {}

  lemma DescribesMany(ps: seq<Piece>, u: seq<i8>)
    requires ps != [] && ps[0].Many?
    ensures Describes(ps, u) <==> exists k :: 0 <= k <= |u| && Describes(ps[1..], u[k..])
  {}

  lemma FirstToken(ps: seq<Piece>)
    requires ps != []
    ensures TokensOf(ps) != [] && TokensOf(ps)[0] == TokenOf(ps[0], |ps| == 1)
  {}

  lemma SameDeep(ps: seq<Piece>, s: CString, j: nat)
    requires j <= |s| && ps != [] && ps[0].Deep? && TokensOf(ps)[1..] == TokensOf(ps[1..]) && SameBehindFirst(ps, s)
    ensures Matches(TokensOf(ps), s, j) <==> Describes(ps, s[j..])
  {
    hide TokensOf, Matches, Describes;
    var u, us := s[j..], TokensOf(ps[1..]);
    FirstToken(ps);
    MatchesDeep(TokensOf(ps), s, j);
    DescribesDeep(ps, u);
    if Matches(TokensOf(ps), s, j) && !Matches(us, s, j) {
      var k :| j <= k < |s| && IsSlash(s[k]) && Matches(us, s, k + 1);
      assert s[k + 1..] == u[k - j + 1..] && u[k - j] == s[k];
    }
    if Describes(ps, u) && !Describes(ps[1..], u) {
      var k :| 0 <= k < |u| && (u[k] == 47 || u[k] == 92) && Describes(ps[1..], u[k + 1..]);
      assert u[k + 1..] == s[j + k + 1..];
      assert Matches(us, s, j + k + 1);
    }
  }

  lemma MatchesDeep(ts: seq<Token>, s: CString, j: nat)
    requires j <= |s| && ts != [] && ts[0].Folders?
    ensures Matches(ts, s, j) <==> Matches(ts[1..], s, j) || exists k :: j <= k < |s| && IsSlash(s[k]) && Matches(ts[1..], s, k + 1)
  {}

  lemma DescribesDeep(ps: seq<Piece>, u: seq<i8>)
    requires ps != [] && ps[0].Deep?
    ensures Describes(ps, u) <==>
      (Describes(ps[1..], u) || exists k :: 0 <= k < |u| && (u[k] == 47 || u[k] == 92) && Describes(ps[1..], u[k + 1..]))
  {}

  lemma SameChar(ps: seq<Piece>, s: CString, j: nat)
    requires j <= |s| && ps != [] && !ps[0].Many? && !ps[0].Deep?
    requires TokensOf(ps)[1..] == TokensOf(ps[1..]) && SameBehindFirst(ps, s)
    ensures Matches(TokensOf(ps), s, j) <==> Describes(ps, s[j..])
  {
    hide TokensOf, InRanges, Listed, RangesOf;
    FirstToken(ps);
    if j < |s| {
      assert s[j..][1..] == s[j + 1..];
      if ps[0].OneOf? || ps[0].NoneOf? {
        SameSet(ps[0].entries, s[j]);
      }
    }
  }

  lemma {:induction false} SameDepth(ps: seq<Piece>)
    ensures Depth(TokensOf(ps)) == Nesting(ps)
  {
    if ps != [] {
      SameDepth(ps[1..]);
      assert TokensOf(ps)[1..] == TokensOf(ps[1..]);
    }
  }

  // ----- patterns that are not written this way -----

  /** An opening bracket that no closing one follows stands for itself. */
  lemma Unclosed(q: CString)
    requires 93 !in q
    ensures Tokens([91] + q, 0) == [Literal(91)] + Tokens(q, 0)
  {
    hide Items, Tokens;
    var p: CString := [91] + q;
    if Bracket(p, 1).Some? {
      var i := if IsNegation(At(p, 1)) then 2 else 1;
      ItemsClosed(p, i);
    }
    TokensBehind([91], q, 0);
    LoneOpen(p);
  }

  lemma LoneOpen(p: CString)
    requires p != [] && p[0] == 91 && Bracket(p, 1).None?
    ensures Tokens(p, 0) == [Literal(91)] + Tokens(p, 1)
  {}

  lemma {:induction false} ItemsClosed(p: CString, i: nat)
    requires Items(p, i).Some?
    ensures 0 < Items(p, i).value.1 <= |p| && p[Items(p, i).value.1 - 1] == 93
    decreases |p| - i
  {
    hide Item;
    ItemEnds(p, i);
    var j := Item(p, i).value.1;
    if At(p, j) != 93 {
      ItemsClosed(p, j);
    }
  }

  /** Two stars with something else than a slash behind them describe nothing. */
  lemma StarsRefuse(c: Char, q: CString, s: CString)
    requires c != 47 && c != 92
    ensures !Matches(Tokens([42, 42, c] + q, 0), s, 0)
  {}
}
