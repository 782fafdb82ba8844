/** The compile stage of the elapsed-time formatter (`DelayedFormat::new`):
    a format string is cut, once, into the literal segments between placeholder
    matches (`spstr`) and the matched placeholder texts (`delimiter`).
    The regular expression `(%[HhMmSs])|(%\.[1-9]?f)` is replaced by a
    hand-written left-to-right scanner. */
module Template {

  /** The language of the regular expression: the sixteen placeholder texts. */
  const Tokens: set<string> := {
    "%H", "%h", "%M", "%m", "%S", "%s",
    "%.f", "%.1f", "%.2f", "%.3f", "%.4f", "%.5f", "%.6f", "%.7f", "%.8f", "%.9f"
  }

  /** Length of the regular-expression match that starts at the beginning of s,
      or 0 when none does. The first alternative `%[HhMmSs]` is tried first;
      in the second, the optional digit is greedy and tried before `f`. */
  function MatchLen(s: string): (r: nat)
    ensures r <= |s| && r <= 4 && r != 1
    ensures r > 0 ==> s[0] == '%'
  {
    if 2 <= |s| && s[0] == '%' && s[1] in "HhMmSs" then 2
    else if 4 <= |s| && s[0] == '%' && s[1] == '.' && '1' <= s[2] <= '9' && s[3] == 'f' then 4
    else if 3 <= |s| && s[0] == '%' && s[1] == '.' && s[2] == 'f' then 3
    else 0
  }

  /** The expression matches a prefix of s of length k exactly when that prefix
      is one of the placeholder texts, and at most one length k matches: the
      alternatives never compete, so leftmost-first and longest-match agree. */
  lemma MatchLenExact(s: string, k: nat)
    requires k <= |s|
    ensures s[..k] in Tokens <==> 0 < k == MatchLen(s)
  {
    var t := s[..k];
    if 0 < k == MatchLen(s) {
      if k == 2 {
        assert t == [s[0], s[1]];
      } else if k == 3 {
        assert t == [s[0], s[1], s[2]];
      } else {
        assert t == [s[0], s[1], s[2], s[3]];
      }
    }
    if t in Tokens {
      assert |t| in {2, 3, 4} && t[0] == '%';
      assert forall i :: 0 <= i < k ==> s[i] == t[i];
    }
  }

  /** No placeholder match starts anywhere inside the literal text lit. */
  predicate NoMatchIn(lit: string) {
    forall j :: 0 <= j < |lit| ==> MatchLen(lit[j..]) == 0
  }

  /** `re.split(s)`: the text before, between and after the matches. */
  function Split(s: string): (r: seq<string>)
    ensures |r| == |FindIter(s)| + 1
    decreases |s|
  {
    if s == [] then
      [""]
    else if MatchLen(s) > 0 then
      [""] + Split(s[MatchLen(s)..])
    else
      var rest := Split(s[1..]);
      [[s[0]] + rest[0]] + rest[1..]
  }

  /** `re.find_iter(s)`: the matched texts, left to right, never overlapping. */
  function FindIter(s: string): (r: seq<string>)
    ensures 2 * |r| <= |s|
    ensures forall i :: 0 <= i < |r| ==> r[i] in Tokens
    decreases |s|
  {
    if s == [] then
      []
    else if MatchLen(s) > 0 then
      MatchLenExact(s, MatchLen(s));
      [s[..MatchLen(s)]] + FindIter(s[MatchLen(s)..])
    else
      FindIter(s[1..])
  }

  /** spstr[0] + delimiter[0] + spstr[1] + ... + delimiter[k-1] + spstr[k]. */
  function Interleave(sp: seq<string>, de: seq<string>): string
    requires |sp| == |de| + 1
    decreases |de|
  {
    if de == [] then sp[0] else sp[0] + de[0] + Interleave(sp[1..], de[1..])
  }

  /** The first k segments, each followed by its placeholder. */
  function Pieces(sp: seq<string>, de: seq<string>, k: nat): string
    requires |sp| == |de| + 1 && k <= |de|
  {
    if k == 0 then "" else Pieces(sp, de, k - 1) + sp[k - 1] + de[k - 1]
  }

  /** What cutting s at its leftmost-first, non-overlapping matches means:
      one more segment than placeholders, the pieces give s back in order,
      each placeholder is a match, and no segment contains one. */
  predicate LeftmostCut(s: string, sp: seq<string>, de: seq<string>) {
    && |sp| == |de| + 1
    && Interleave(sp, de) == s
    && (forall i :: 0 <= i < |de| ==> de[i] in Tokens)
    && (forall i :: 0 <= i < |sp| ==> NoMatchIn(sp[i]))
  }

  /** The compiled template (`DelayedFormat`): immutable once built. */
  datatype DelayedFormat = DelayedFormat(spstr: seq<string>, delimiter: seq<string>, len: nat)
  {
    /** The shape every template the compiler builds has, and that rendering indexes by. */
    predicate WellFormed() {
      |spstr| == len + 1 && len == |delimiter|
    }
  }

  /** `DelayedFormat::new`: compile a format string. */
  function Compile(s: string): (f: DelayedFormat)
    ensures f.WellFormed()
    ensures Interleave(f.spstr, f.delimiter) == s
    ensures forall i :: 0 <= i < f.len ==> f.delimiter[i] in Tokens
    ensures forall i :: 0 <= i < |f.spstr| ==> NoMatchIn(f.spstr[i])
  {
    SplitIsLeftmostCut(s);
    var delimiter := FindIter(s);
    DelayedFormat(Split(s), delimiter, |delimiter|)
  }

  // ------------------------------------------------------------------ lemmas

  /** A match never runs into a following placeholder: placeholders carry '%'
      only in front, so text without a match stays without one when a
      placeholder (or nothing) follows it. */
  lemma NoMatchBeforePercent(lit: string, t: string)
    requires lit != [] && MatchLen(lit) == 0
    requires t == [] || t[0] == '%'
    ensures MatchLen(lit + t) == 0
  {
    var s := lit + t;
    assert forall i :: 0 <= i < |lit| ==> s[i] == lit[i];
    assert t != [] ==> s[|lit|] == '%';
  }

  lemma TokenStartsWithPercent(t: string)
    requires t in Tokens
    ensures |t| >= 2 && t[0] == '%'
  {
  }

  /** Prepending a character c to a segment without matches gives a segment
      without matches when no match starts at c in the text around it. */
  lemma NoMatchInCons(c: char, lit: string, s: string)
    requires NoMatchIn(lit)
    requires 1 + |lit| <= |s| && s[..1 + |lit|] == [c] + lit && MatchLen(s) == 0
    ensures NoMatchIn([c] + lit)
  {
    var l := [c] + lit;
    forall j | 0 <= j < |l|
      ensures MatchLen(l[j..]) == 0
    {
      if j > 0 {
        assert l[j..] == lit[j - 1..];
      }
    }
  }

  /** Dropping the first character of a segment keeps it free of matches. */
  lemma NoMatchInTail(lit: string)
    requires lit != [] && NoMatchIn(lit)
    ensures NoMatchIn(lit[1..])
  {
    forall j | 0 <= j < |lit| - 1
      ensures MatchLen(lit[1..][j..]) == 0
    {
      assert lit[1..][j..] == lit[j + 1..];
    }
  }

  /** Moving one character from the front of the output into the first segment. */
  lemma InterleaveConsHead(c: char, sp: seq<string>, de: seq<string>)
    requires |sp| == |de| + 1
    ensures Interleave([[c] + sp[0]] + sp[1..], de) == [c] + Interleave(sp, de)
  {
    var sp' := [[c] + sp[0]] + sp[1..];
    assert sp'[0] == [c] + sp[0] && sp'[1..] == sp[1..];
  }

  /** Interleaving from position i on: segment i, placeholder i, then the rest. */
  lemma InterleaveFrom(sp: seq<string>, de: seq<string>, i: nat)
    requires |sp| == |de| + 1 && i < |de|
    ensures Interleave(sp[i..], de[i..]) == sp[i] + de[i] + Interleave(sp[i + 1..], de[i + 1..])
  {
    assert sp[i..][1..] == sp[i + 1..] && de[i..][1..] == de[i + 1..];
  }

  /** The interleaving read left to right: the first k pieces, then the
      interleaving of what is left. */
  lemma {:induction false} InterleaveAfterPieces(sp: seq<string>, de: seq<string>, k: nat)
    requires |sp| == |de| + 1 && k <= |de|
    ensures Interleave(sp, de) == Pieces(sp, de, k) + Interleave(sp[k..], de[k..])
  {
    if k == 0 {
      assert sp[0..] == sp && de[0..] == de;
    } else {
      InterleaveAfterPieces(sp, de, k - 1);
      InterleaveFrom(sp, de, k - 1);
    }
  }

  /** All pieces and then the trailing segment make the whole interleaving. */
  lemma InterleaveIsPiecesThenLast(sp: seq<string>, de: seq<string>)
    requires |sp| == |de| + 1
    ensures Interleave(sp, de) == Pieces(sp, de, |de|) + sp[|de|]
  {
    InterleaveAfterPieces(sp, de, |de|);
    assert de[|de|..] == [];
  }

  /** The first segment is a prefix of the interleaving. */
  lemma InterleaveStartsWith(sp: seq<string>, de: seq<string>)
    requires |sp| == |de| + 1
    ensures |sp[0]| <= |Interleave(sp, de)|
    ensures Interleave(sp, de)[..|sp[0]|] == sp[0]
  {
    if de != [] {
      var r := Interleave(sp[1..], de[1..]);
      assert Interleave(sp, de) == sp[0] + (de[0] + r);
    }
  }

  /** A placeholder in front of a cut: an empty first segment, then the placeholder. */
  lemma CutAfterToken(tok: string, s: string, sp: seq<string>, de: seq<string>)
    requires tok in Tokens && LeftmostCut(s, sp, de)
    ensures LeftmostCut(tok + s, [""] + sp, [tok] + de)
  {
    var sp', de' := [""] + sp, [tok] + de;
    assert sp'[1..] == sp && de'[1..] == de;
    assert NoMatchIn("");
    forall i | 0 <= i < |sp'|
      ensures NoMatchIn(sp'[i])
    {
      if i > 0 {
        assert sp'[i] == sp[i - 1];
      }
    }
    forall i | 0 <= i < |de'|
      ensures de'[i] in Tokens
    {
      if i > 0 {
        assert de'[i] == de[i - 1];
      }
    }
  }

  /** A character at which no match starts, in front of a cut, joins the first segment. */
  lemma CutAfterChar(c: char, s: string, sp: seq<string>, de: seq<string>)
    requires LeftmostCut(s, sp, de) && MatchLen([c] + s) == 0
    ensures LeftmostCut([c] + s, [[c] + sp[0]] + sp[1..], de)
  {
    var sp' := [[c] + sp[0]] + sp[1..];
    InterleaveStartsWith(sp, de);
    var t := [c] + s;
    assert t[..1 + |sp[0]|] == [c] + s[..|sp[0]|];
    NoMatchInCons(c, sp[0], t);
    InterleaveConsHead(c, sp, de);
    forall i | 0 <= i < |sp'|
      ensures NoMatchIn(sp'[i])
    {
      if i > 0 {
        assert sp'[i] == sp[i];
      }
    }
  }

  /** The split and the matches of s are a leftmost cut of s. */
  lemma {:induction false} SplitIsLeftmostCut(s: string)
    ensures LeftmostCut(s, Split(s), FindIter(s))
    decreases |s|
  {
    if s == [] {
      assert NoMatchIn("");
    } else if MatchLen(s) > 0 {
      SplitIsLeftmostCut(s[MatchLen(s)..]);
      SplitStepToken(s);
    } else {
      SplitIsLeftmostCut(s[1..]);
      SplitStepChar(s);
    }
  }

  lemma SplitStepToken(s: string)
    requires MatchLen(s) > 0
    requires LeftmostCut(s[MatchLen(s)..], Split(s[MatchLen(s)..]), FindIter(s[MatchLen(s)..]))
    ensures LeftmostCut(s, Split(s), FindIter(s))
  {
    var n := MatchLen(s);
    MatchLenExact(s, n);
    CutAfterToken(s[..n], s[n..], Split(s[n..]), FindIter(s[n..]));
    SplitOfToken(s);
  }

  /** Split and find_iter at a match: an empty segment, the match, then the rest. */
  lemma SplitOfToken(s: string)
    requires MatchLen(s) > 0
    ensures var n := MatchLen(s);
      && s[..n] + s[n..] == s
      && Split(s) == [""] + Split(s[n..])
      && FindIter(s) == [s[..n]] + FindIter(s[n..])
  {
  }

  lemma SplitStepChar(s: string)
    requires s != [] && MatchLen(s) == 0
    requires LeftmostCut(s[1..], Split(s[1..]), FindIter(s[1..]))
    ensures LeftmostCut(s, Split(s), FindIter(s))
  {
    CutAfterChar(s[0], s[1..], Split(s[1..]), FindIter(s[1..]));
    SplitOfChar(s);
  }

  /** Split and find_iter at a character where no match starts: the character
      joins the first segment of the rest. */
  lemma SplitOfChar(s: string)
    requires s != [] && MatchLen(s) == 0
    ensures [s[0]] + s[1..] == s
    ensures Split(s) == [[s[0]] + Split(s[1..])[0]] + Split(s[1..])[1..]
    ensures FindIter(s) == FindIter(s[1..])
  {
  }

  /** A leftmost cut of the empty string is one empty segment. */
  lemma CutOfEmpty(sp: seq<string>, de: seq<string>)
    requires LeftmostCut("", sp, de)
    ensures sp == [""] && de == []
  {
    if de != [] {
      TokenStartsWithPercent(de[0]);
    }
  }

  /** A leftmost cut whose first segment is empty starts with the match at the
      front of s, and what follows it is a leftmost cut of the rest. */
  lemma CutStartingWithToken(s: string, sp: seq<string>, de: seq<string>)
    requires LeftmostCut(s, sp, de) && s != [] && sp[0] == ""
    ensures de != [] && MatchLen(s) == |de[0]| && s[..|de[0]|] == de[0]
    ensures LeftmostCut(s[|de[0]|..], sp[1..], de[1..])
  {
    var s' := Interleave(sp[1..], de[1..]);
    assert s == de[0] + s';
    var n := |de[0]|;
    assert s[..n] == de[0] && s[n..] == s';
    MatchLenExact(s, n);
    forall i | 0 <= i < |sp| - 1
      ensures NoMatchIn(sp[1..][i])
    {
      assert sp[1..][i] == sp[i + 1];
    }
    forall i | 0 <= i < |de| - 1
      ensures de[1..][i] in Tokens
    {
      assert de[1..][i] == de[i + 1];
    }
  }

  /** A leftmost cut whose first segment is not empty starts with a character
      at which no match starts; the cut without it is a leftmost cut of the rest. */
  lemma CutStartingWithChar(s: string, sp: seq<string>, de: seq<string>)
    requires LeftmostCut(s, sp, de) && sp[0] != ""
    ensures s != [] && MatchLen(s) == 0 && s[0] == sp[0][0]
    ensures LeftmostCut(s[1..], [sp[0][1..]] + sp[1..], de)
  {
    var lit := sp[0];
    assert lit[0..] == lit;
    var t := if de == [] then "" else de[0] + Interleave(sp[1..], de[1..]);
    if de != [] {
      TokenStartsWithPercent(de[0]);
    }
    assert s == lit + t;
    NoMatchBeforePercent(lit, t);
    var sp' := [lit[1..]] + sp[1..];
    assert [lit[0]] + lit[1..] == lit;
    assert sp'[0] == lit[1..] && sp'[1..] == sp[1..];
    assert sp == [[lit[0]] + sp'[0]] + sp'[1..];
    InterleaveConsHead(lit[0], sp', de);
    NoMatchInTail(lit);
    forall i | 0 <= i < |sp'|
      ensures NoMatchIn(sp'[i])
    {
      if i > 0 {
        assert sp'[i] == sp[i];
      }
    }
  }

  /** Leftmost cuts are unique: a decomposition of s into segments without
      matches with placeholders between them is exactly split and find_iter. */
  lemma {:induction false} LeftmostCutUnique(s: string, sp: seq<string>, de: seq<string>)
    requires LeftmostCut(s, sp, de)
    ensures sp == Split(s) && de == FindIter(s)
    decreases |s|
  {
    if s == [] {
      CutOfEmpty(sp, de);
    } else if sp[0] == "" {
      CutStartingWithToken(s, sp, de);
      TokenStartsWithPercent(de[0]);
      LeftmostCutUnique(s[|de[0]|..], sp[1..], de[1..]);
      UniqueStepToken(s, sp, de);
    } else {
      CutStartingWithChar(s, sp, de);
      LeftmostCutUnique(s[1..], [sp[0][1..]] + sp[1..], de);
      UniqueStepChar(s, sp, de);
    }
  }

  lemma UniqueStepToken(s: string, sp: seq<string>, de: seq<string>)
    requires s != [] && sp != [] && de != [] && sp[0] == ""
    requires 0 < MatchLen(s) == |de[0]| && s[..|de[0]|] == de[0]
    requires sp[1..] == Split(s[|de[0]|..]) && de[1..] == FindIter(s[|de[0]|..])
    ensures sp == Split(s) && de == FindIter(s)
  {
    var n := MatchLen(s);
    assert Split(s) == [""] + Split(s[n..]);
    assert FindIter(s) == [s[..n]] + FindIter(s[n..]);
    assert sp == [""] + sp[1..] && de == [de[0]] + de[1..];
  }

  lemma UniqueStepChar(s: string, sp: seq<string>, de: seq<string>)
    requires s != [] && sp != [] && sp[0] != "" && MatchLen(s) == 0 && s[0] == sp[0][0]
    requires [sp[0][1..]] + sp[1..] == Split(s[1..]) && de == FindIter(s[1..])
    ensures sp == Split(s) && de == FindIter(s)
  {
    SplitOfChar(s);
    var sp' := [sp[0][1..]] + sp[1..];
    assert [s[0]] + sp'[0] == sp[0];
    assert sp == [[s[0]] + sp'[0]] + sp'[1..];
  }

  /** The compiled template is characterized by the cut: Compile(s) has segments
      sp and placeholders de exactly when sp and de are a leftmost cut of s. */
  lemma CompileIsLeftmostCut(s: string, sp: seq<string>, de: seq<string>)
    ensures Compile(s) == DelayedFormat(sp, de, |de|) <==> LeftmostCut(s, sp, de)
  {
    if LeftmostCut(s, sp, de) {
      LeftmostCutUnique(s, sp, de);
    }
  }

  /** A format string compiles to a single segment and no placeholder exactly
      when no match occurs in it: unrecognised text stays literal. */
  lemma CompileLiteral(s: string)
    ensures Compile(s) == DelayedFormat([s], [], 0) <==> NoMatchIn(s)
  {
    CompileIsLeftmostCut(s, [s], []);
    if NoMatchIn(s) {
      assert LeftmostCut(s, [s], []);
    }
  }
}
