/** Glob patterns as fnmatch.cpp reads them with no flags set: how a pattern is cut into
    tokens, and which strings the tokens match. */
module Glob {
  import opened Options
  import opened MachineInts

  /** A C string without its terminator.  Characters are signed. */
  type CString = s: seq<i8> | 0 !in s

  const STAR: i8 := 42
  const DASH: i8 := 45
  const SLASH: i8 := 47
  const QUESTION: i8 := 63
  const OPEN: i8 := 91
  const BACKSLASH: i8 := 92
  const CLOSE: i8 := 93
  const BANG: i8 := 33
  const CARET: i8 := 94

  /** Reading through a pointer: the terminator follows the last character. */
  function At(s: CString, i: nat): (c: i8)
    ensures i < |s| ==> c == s[i] && c != 0
    ensures i >= |s| ==> c == 0
  {
    if i < |s| then s[i] else 0
  }

  predicate IsSlash(c: i8) { c == SLASH || c == BACKSLASH }

  datatype Range = Range(lo: i8, hi: i8)

  datatype Token =
    | Literal(c: i8)
    | AnyChar
    | Set(negate: bool, ranges: seq<Range>)
    | AnyString   // a star that something other than a star follows
    | Everything  // a star, or two, at the end
    | Folders     // two stars and a slash
    | Nothing     // two stars and something else

  // ----- brackets -----

  /** A character of a bracket, which a backslash may precede. */
  function Quoted(p: CString, i: nat): (i8, nat) {
    if At(p, i) == BACKSLASH then (At(p, i + 1), i + 2) else (At(p, i), i + 1)
  }

  /** One character or range of a bracket and the place behind it. */
  function Item(p: CString, i: nat): (r: Option<(Range, nat)>)
    ensures r.Some? ==> i < r.value.1 <= |p|
  {
    var (lo, j) := Quoted(p, i);
    if lo == 0 then None
    else if At(p, j) == DASH && At(p, j + 1) != 0 && At(p, j + 1) != CLOSE then
      var (hi, k) := Quoted(p, j + 1);
      if hi == 0 then None else Some((Range(lo, hi), k))
    else Some((Range(lo, lo), j))
  }

  /** The ranges up to the closing bracket and the place behind it.  A closing bracket
      that comes first stands for itself. */
  function Items(p: CString, i: nat): (r: Option<(seq<Range>, nat)>)
    ensures r.Some? ==> i < r.value.1 <= |p|
    decreases |p| - i
  {
    match Item(p, i)
    case None => None
    case Some((range, j)) =>
      if At(p, j) == CLOSE then Some(([range], j + 1))
      else match Items(p, j)
        case None => None
        case Some((ranges, k)) => Some(([range] + ranges, k))
  }

  predicate IsNegation(c: i8) { c == BANG || c == CARET }

  /** The bracket whose inside begins at i, if it is closed. */
  function Bracket(p: CString, i: nat): (r: Option<(Token, nat)>)
    ensures r.Some? ==> i < r.value.1 <= |p| && r.value.0.Set?
  {
    var negate := IsNegation(At(p, i));
    match Items(p, if negate then i + 1 else i)
    case None => None
    case Some((ranges, j)) => Some((Set(negate, ranges), j))
  }

  predicate InRanges(ranges: seq<Range>, c: i8) {
    exists r :: r in ranges && r.lo <= c <= r.hi
  }

  predicate InSet(t: Token, c: i8)
    requires t.Set?
  {
    InRanges(t.ranges, c) != t.negate
  }

  // ----- patterns -----

  /** The tokens of the pattern from i on. */
  function Tokens(p: CString, i: nat): seq<Token>
    requires i <= |p|
    decreases |p| - i
  {
    if i == |p| then []
    else if p[i] == QUESTION then [AnyChar] + Tokens(p, i + 1)
    else if p[i] == STAR then
      if At(p, i + 1) == STAR then
        if At(p, i + 2) == 0 then [Everything]
        else if IsSlash(At(p, i + 2)) then [Folders] + Tokens(p, i + 3)
        else [Nothing]
      else if At(p, i + 1) == 0 then [Everything]
      else [AnyString] + Tokens(p, i + 1)
    else if p[i] == OPEN then
      match Bracket(p, i + 1)
      case None => [Literal(OPEN)] + Tokens(p, i + 1)
      case Some((set_, j)) => [set_] + Tokens(p, j)
    else if p[i] == BACKSLASH && i + 1 < |p| then [Literal(p[i + 1])] + Tokens(p, i + 2)
    else [Literal(p[i])] + Tokens(p, i + 1)
  }

  /** The string from j on is what the tokens describe. */
  ghost predicate Matches(ts: seq<Token>, s: CString, j: nat)
    requires j <= |s|
    decreases |ts|
  {
    if ts == [] then j == |s|
    else match ts[0]
      case Literal(c) => j < |s| && s[j] == c && Matches(ts[1..], s, j + 1)
      case AnyChar => j < |s| && Matches(ts[1..], s, j + 1)
      case Set(_, _) => j < |s| && InSet(ts[0], s[j]) && Matches(ts[1..], s, j + 1)
      case AnyString => exists k :: j <= k <= |s| && Matches(ts[1..], s, k)
      case Everything => true
      case Folders => Matches(ts[1..], s, j) || exists k :: j <= k < |s| && IsSlash(s[k]) && Matches(ts[1..], s, k + 1)
      case Nothing => false
  }

  /** The tokens for which the matcher calls itself. */
  function Depth(ts: seq<Token>): nat {
    if ts == [] then 0 else (if ts[0].AnyString? || ts[0].Folders? then 1 else 0) + Depth(ts[1..])
  }

  /** What a star is followed by does not match the empty string. */
  lemma NotAtEnd(p: CString, i: nat, s: CString)
    requires i < |p| && p[i] != STAR
    ensures !Matches(Tokens(p, i), s, |s|)
  {}
}
