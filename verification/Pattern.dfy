/** Regular expressions that are a concatenation of repeated character classes, which is what
    the row expression of the nodetool parser is. They are given twice: as the declarative relation
    Splits between a text and its parts, and as the backtracking matcher Match, which
    tries the lengths of each part in the order of preference of Go's regexp package. */
module Pattern {
  import opened Outcomes

  datatype Class = Upper | Letter | Digit | Decimal | LoadChar | IdChar | Space | Dot | Percent | NotNewline

  predicate In(c: char, cls: Class) {
    match cls
    case Upper => 'A' <= c <= 'Z'
    case Letter => 'A' <= c <= 'Z' || 'a' <= c <= 'z'
    case Digit => '0' <= c <= '9'
    case Decimal => '0' <= c <= '9' || c == '.'
    case LoadChar => '0' <= c <= '9' || c == '.' || c == '?'
    case IdChar => 'a' <= c <= 'f' || c == '-' || '0' <= c <= '9'
    case Space => c == ' ' || c == '\t' || c == '\n' || c == '\r' || c == 12 as char
    case Dot => c == '.'
    case Percent => c == '%'
    case NotNewline => c != '\n'
  }

  predicate AllIn(s: string, cls: Class) {
    forall i :: 0 <= i < |s| ==> In(s[i], cls)
  }

  /** Between min and max characters of one class; a lazy piece prefers the shortest part. */
  datatype Piece = Piece(cls: Class, min: nat, max: Option<nat>, lazy: bool)

  predicate Fits(piece: Piece, part: string) {
    && piece.min <= |part|
    && (piece.max.Some? ==> |part| <= piece.max.value)
    && AllIn(part, piece.cls)
  }

  function Concat(parts: seq<string>): string {
    if parts == [] then "" else parts[0] + Concat(parts[1..])
  }

  lemma {:induction false} ConcatBound(parts: seq<string>, k: nat)
    requires forall i :: 0 <= i < |parts| ==> |parts[i]| <= k && AllIn(parts[i], NotNewline)
    ensures |Concat(parts)| <= |parts| * k && AllIn(Concat(parts), NotNewline)
  {
    if parts == [] {
    } else {
      ConcatBound(parts[1..], k);
      assert |parts| * k == k + (|parts| - 1) * k;
    }
  }

  lemma {:induction false} ConcatLast(parts: seq<string>)
    requires parts != [] && parts[|parts| - 1] != ""
    ensures var s, last := Concat(parts), parts[|parts| - 1];
            s != "" && s[|s| - 1] == last[|last| - 1]
  {
    if |parts| == 1 {
      assert Concat(parts) == parts[0] + "";
    } else {
      ConcatLast(parts[1..]);
    }
  }

  /** The meaning of a pattern: the text is cut into parts that fit the pieces one by one. */
  predicate Splits(pat: seq<Piece>, s: string, parts: seq<string>) {
    && |parts| == |pat|
    && (forall i :: 0 <= i < |pat| ==> Fits(pat[i], parts[i]))
    && Concat(parts) == s
  }

  lemma SplitsTail(pat: seq<Piece>, s: string, parts: seq<string>)
    requires pat != [] && Splits(pat, s, parts)
    ensures Fits(pat[0], parts[0]) && |parts[0]| <= |s| && parts[0] == s[..|parts[0]|]
    ensures Splits(pat[1..], s[|parts[0]|..], parts[1..])
  {
    assert s == parts[0] + Concat(parts[1..]);
    forall i | 0 <= i < |pat[1..]| ensures Fits(pat[1..][i], parts[1..][i]) {
      assert Fits(pat[i + 1], parts[i + 1]);
    }
  }

  lemma SplitsCons(pat: seq<Piece>, s: string, n: nat, parts: seq<string>)
    requires pat != [] && n <= |s| && Fits(pat[0], s[..n]) && Splits(pat[1..], s[n..], parts)
    ensures Splits(pat, s, [s[..n]] + parts)
  {
    var all := [s[..n]] + parts;
    assert all[1..] == parts;
    assert s[..n] + s[n..] == s;
    forall i | 0 <= i < |pat| ensures Fits(pat[i], all[i]) {
      if i > 0 { assert Fits(pat[1..][i - 1], parts[i - 1]); }
    }
  }

  // ----- The matcher

  /** The length of the longest prefix of s in the class. */
  function Span(cls: Class, s: string): (n: nat)
    ensures n <= |s| && forall i :: 0 <= i < n ==> In(s[i], cls)
    ensures n < |s| ==> !In(s[n], cls)
  {
    if s == "" || !In(s[0], cls) then 0
    else
      var n := 1 + Span(cls, s[1..]);
      assert forall i :: 0 < i < n ==> s[i] == s[1..][i - 1];
      n
  }

  function Longest(piece: Piece, s: string): (n: nat)
    ensures n <= |s|
  {
    var n := Span(piece.cls, s);
    if piece.max.Some? && piece.max.value < n then piece.max.value else n
  }

  function Ascending(lo: nat, hi: int): (lens: seq<nat>)
    ensures forall n: nat :: n in lens <==> lo <= n <= hi
    ensures forall i :: 0 <= i < |lens| ==> lo <= lens[i] <= hi
    decreases hi - lo
  {
    if hi < lo then [] else [lo] + Ascending(lo + 1, hi)
  }

  function Descending(hi: int, lo: nat): (lens: seq<nat>)
    ensures forall n: nat :: n in lens <==> lo <= n <= hi
    ensures forall i :: 0 <= i < |lens| ==> lo <= lens[i] <= hi
    decreases hi - lo
  {
    if hi < lo then [] else [hi] + Descending(hi - 1, lo)
  }

  /** The lengths to try for a piece on s, most preferred first. */
  function Candidates(piece: Piece, s: string): (lens: seq<nat>)
    ensures forall i :: 0 <= i < |lens| ==> lens[i] <= |s|
  {
    if piece.lazy then Ascending(piece.min, Longest(piece, s)) else Descending(Longest(piece, s), piece.min)
  }

  lemma CandidatesFit(piece: Piece, s: string, n: nat)
    requires n <= |s|
    ensures n in Candidates(piece, s) <==> Fits(piece, s[..n])
  {
    var run := Span(piece.cls, s);
    if run < n { assert s[..n][run] == s[run]; }
  }

  function Match(pat: seq<Piece>, s: string): Option<seq<string>>
    decreases |pat|, 0
  {
    if pat == [] then if s == "" then Some([]) else None
    else TryLengths(pat, s, Candidates(pat[0], s))
  }

  function TryLengths(pat: seq<Piece>, s: string, lens: seq<nat>): Option<seq<string>>
    requires pat != [] && forall i :: 0 <= i < |lens| ==> lens[i] <= |s|
    decreases |pat| - 1, |lens| + 1
  {
    if lens == [] then None
    else
      match Match(pat[1..], s[lens[0]..])
      case Some(parts) => Some([s[..lens[0]]] + parts)
      case None => TryLengths(pat, s, lens[1..])
  }

  /** The matcher returns only parts that the pattern allows. */
  lemma {:induction false} MatchSound(pat: seq<Piece>, s: string)
    ensures Match(pat, s).Some? ==> Splits(pat, s, Match(pat, s).value)
    decreases |pat|, 0
  {
    if pat == [] {
    } else {
      var lens := Candidates(pat[0], s);
      forall i | 0 <= i < |lens| ensures Fits(pat[0], s[..lens[i]]) {
        CandidatesFit(pat[0], s, lens[i]);
      }
      TrySound(pat, s, lens);
    }
  }

  lemma {:induction false} TrySound(pat: seq<Piece>, s: string, lens: seq<nat>)
    requires pat != [] && forall i :: 0 <= i < |lens| ==> lens[i] <= |s| && Fits(pat[0], s[..lens[i]])
    ensures TryLengths(pat, s, lens).Some? ==> Splits(pat, s, TryLengths(pat, s, lens).value)
    decreases |pat| - 1, |lens| + 1
  {
    if lens == [] {
    } else {
      MatchSound(pat[1..], s[lens[0]..]);
      match Match(pat[1..], s[lens[0]..])
      case Some(parts) => SplitsCons(pat, s, lens[0], parts);
      case None => TrySound(pat, s, lens[1..]);
    }
  }

  /** The matcher finds a match of every text that has one. */
  lemma {:induction false} MatchComplete(pat: seq<Piece>, s: string, parts: seq<string>)
    requires Splits(pat, s, parts)
    ensures Match(pat, s).Some?
    decreases |pat|, 0
  {
    if pat == [] {
    } else {
      SplitsTail(pat, s, parts);
      MatchComplete(pat[1..], s[|parts[0]|..], parts[1..]);
      CandidatesFit(pat[0], s, |parts[0]|);
      TryComplete(pat, s, Candidates(pat[0], s), |parts[0]|);
    }
  }

  lemma {:induction false} TryComplete(pat: seq<Piece>, s: string, lens: seq<nat>, n: nat)
    requires pat != [] && n in lens && n <= |s| && forall i :: 0 <= i < |lens| ==> lens[i] <= |s|
    requires Match(pat[1..], s[n..]).Some?
    ensures TryLengths(pat, s, lens).Some?
    decreases lens
  {
    if lens[0] != n { TryComplete(pat, s, lens[1..], n); }
  }

  // ----- When a part is determined by the text

  predicate Disjoint(a: Class, b: Class) {
    forall c: char :: !(In(c, a) && In(c, b))
  }

  /** The length of the first part is fixed, or the second part is not empty and cannot begin
      with a character of the first. */
  predicate Determined(pat: seq<Piece>) {
    && |pat| >= 2
    && (pat[0].max == Some(pat[0].min) || (pat[1].min >= 1 && Disjoint(pat[0].cls, pat[1].cls)))
  }

  lemma PartIsSpan(piece: Piece, next: Piece, s: string, part: string, nextPart: string)
    requires Fits(piece, part) && Fits(next, nextPart) && nextPart != ""
    requires Disjoint(piece.cls, next.cls) && part + nextPart <= s
    ensures |part| == Span(piece.cls, s)
  {
    assert In(nextPart[0], next.cls) && s[|part|] == nextPart[0];
    assert forall i :: 0 <= i < |part| ==> s[i] == part[i];
  }

  lemma FirstPartDetermined(pat: seq<Piece>, s: string, p: seq<string>, q: seq<string>)
    requires Determined(pat) && Splits(pat, s, p) && Splits(pat, s, q)
    ensures p[0] == q[0]
    ensures Splits(pat[1..], s[|p[0]|..], p[1..]) && Splits(pat[1..], s[|p[0]|..], q[1..])
  {
    SplitsTail(pat, s, p);
    SplitsTail(pat, s, q);
    if pat[0].max != Some(pat[0].min) {
      forall r | r == p || r == q ensures |r[0]| == Span(pat[0].cls, s) {
        SplitsTail(pat[1..], s[|r[0]|..], r[1..]);
        assert s == r[0] + s[|r[0]|..] && Fits(pat[1], r[1]);
        PartIsSpan(pat[0], pat[1], s, r[0], r[1]);
      }
    }
  }

  /** The two splittings agree on the first n parts, and split the same rest of the text. */
  predicate AgreeUpTo(pat: seq<Piece>, n: nat, s: string, p: seq<string>, q: seq<string>)
    requires |p| == |q| == |pat| && n <= |pat|
  {
    && p[..n] == q[..n] && |Concat(p[..n])| <= |s|
    && Splits(pat[n..], s[|Concat(p[..n])|..], p[n..]) && Splits(pat[n..], s[|Concat(p[..n])|..], q[n..])
  }

  lemma AgreeCons(pat: seq<Piece>, n: nat, s: string, p: seq<string>, q: seq<string>)
    requires 0 < n <= |pat| == |p| == |q| && p[0] == q[0] && |p[0]| <= |s|
    requires AgreeUpTo(pat[1..], n - 1, s[|p[0]|..], p[1..], q[1..])
    ensures AgreeUpTo(pat, n, s, p, q)
  {
    var rest := s[|p[0]|..];
    assert p[..n] == [p[0]] + p[1..][..n - 1] && q[..n] == [q[0]] + q[1..][..n - 1];
    assert p[..n][1..] == p[1..][..n - 1];
    assert pat[n..] == pat[1..][n - 1..] && p[n..] == p[1..][n - 1..] && q[n..] == q[1..][n - 1..];
    assert rest[|Concat(p[1..][..n - 1])|..] == s[|Concat(p[..n])|..];
  }

  /** Two ways of matching agree on every part of a determined prefix of the pattern. */
  lemma {:induction false} PrefixDetermined(pat: seq<Piece>, n: nat, s: string, p: seq<string>, q: seq<string>)
    requires n < |pat| && Splits(pat, s, p) && Splits(pat, s, q)
    requires forall i :: 0 <= i < n ==> Determined(pat[i..])
    ensures AgreeUpTo(pat, n, s, p, q)
  {
    if n > 0 {
      assert pat[0..] == pat;
      FirstPartDetermined(pat, s, p, q);
      SplitsTail(pat, s, p);
      forall i | 0 <= i < n - 1 ensures Determined(pat[1..][i..]) {
        assert pat[1..][i..] == pat[i + 1..];
      }
      PrefixDetermined(pat[1..], n - 1, s[|p[0]|..], p[1..], q[1..]);
      AgreeCons(pat, n, s, p, q);
    } else {
      assert pat[0..] == pat && p[0..] == p && q[0..] == q && s[0..] == s && p[..0] == [] && q[..0] == [];
    }
  }
}
