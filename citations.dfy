/**
 * Step B of rendering: `summaryText.replace(/\[(\d+)\]/g, replaceFunction)`.
 * The text is scanned left to right; wherever the pattern matches, the match is replaced by
 * what the callback returns and scanning resumes after the match, so matches never overlap
 * and replacement text is not scanned again.
 */
module Citations {
  import opened Wrappers
  import opened References
  import opened ArrayIndex

  /** How many digits the greedy `\d+` consumes at the start of s. */
  function DigitRun(s: string): (n: nat)
    ensures n <= |s|
    ensures AllDigits(s[..n])
    ensures n < |s| ==> !IsDigit(s[n])
    decreases |s|
  {
    if s != [] && IsDigit(s[0]) then
      var k := DigitRun(s[1..]);
      assert s[..1 + k] == [s[0]] + s[1..][..k];
      1 + k
    else 0
  }

  /** s begins with the citation token `[d]`, d made of one or more digits. */
  predicate StartsWithToken(s: string, d: string)
  {
    0 < |d| && AllDigits(d) && |d| + 2 <= |s| && s[..|d| + 2] == "[" + d + "]"
  }

  /** The digits of the match of `/\[(\d+)\]/` anchored at the start of s, if it matches there. */
  function TokenAt(s: string): (d: Option<string>)
    ensures d.Some? ==> StartsWithToken(s, d.value)
  {
    if |s| < 3 || s[0] != '[' then None
    else
      var n := DigitRun(s[1..]);
      if 0 < n && n + 1 < |s| && s[n + 1] == ']' then
        assert s[1..n + 1] == s[1..][..n];
        assert s[..n + 2] == "[" + s[1..n + 1] + "]";
        Some(s[1..n + 1])
      else None
  }

  /** The digit run of a token is all of its digits: `]` stops it. */
  lemma DigitRunStopsAt(s: string, n: nat)
    requires n < |s| && AllDigits(s[..n]) && !IsDigit(s[n])
    ensures DigitRun(s) == n
  {
  }

  /** The pattern matches at the start of s with digits d exactly when s begins with `[d]`. */
  lemma TokenAtIff(s: string, d: string)
    ensures TokenAt(s) == Some(d) <==> StartsWithToken(s, d)
  {
    if StartsWithToken(s, d) {
      var t := s[1..];
      assert s[0] == '[' && s[|d| + 1] == ']';
      assert t[..|d|] == d;
      DigitRunStopsAt(t, |d|);
      assert s[1..|d| + 1] == d;
    }
  }

  /** One piece of the summary text as the scan sees it. */
  datatype Segment = Char(c: char) | Citation(digits: string)

  /** The text a segment covers in the input. */
  function Spelling(seg: Segment): string
  {
    match seg
    case Char(c) => [c]
    case Citation(d) => "[" + d + "]"
  }

  function Spell(segs: seq<Segment>): string
  {
    if segs == [] then "" else Spelling(segs[0]) + Spell(segs[1..])
  }

  /** The digit strings of the citations among segs, in order. */
  function Cited(segs: seq<Segment>): seq<string>
  {
    if segs == [] then []
    else (if segs[0].Citation? then [segs[0].digits] else []) + Cited(segs[1..])
  }

  /**
   * The successive matches of the global pattern, and the characters between them:
   * the pieces spell the text back and every citation is well formed.
   */
  function Scan(s: string): (segs: seq<Segment>)
    ensures Spell(segs) == s
    ensures forall i :: 0 <= i < |segs| && segs[i].Citation? ==>
      0 < |segs[i].digits| && AllDigits(segs[i].digits)
    decreases |s|
  {
    if s == [] then []
    else match TokenAt(s)
      case Some(d) =>
        assert s == s[..|d| + 2] + s[|d| + 2..];
        [Citation(d)] + Scan(s[|d| + 2..])
      case None => [Char(s[0])] + Scan(s[1..])
  }

  /**
   * The pieces are exactly the pattern's successive matches: a citation piece sits where the
   * pattern matches with its digits, and a single character is emitted only where it does not
   * match. With `TokenAtIff` this fixes the scan to the leftmost, non-overlapping matches.
   */
  lemma {:induction false} ScanMaximal(s: string)
    ensures forall i :: 0 <= i < |Scan(s)| && Scan(s)[i].Char? ==> TokenAt(Spell(Scan(s)[i..])) == None
    ensures forall i :: 0 <= i < |Scan(s)| && Scan(s)[i].Citation? ==>
      TokenAt(Spell(Scan(s)[i..])) == Some(Scan(s)[i].digits)
    decreases |s|
  {
    if s != [] {
      var segs := Scan(s);
      var rest := match TokenAt(s) case Some(d) => s[|d| + 2..] case None => s[1..];
      assert segs[1..] == Scan(rest);
      ScanMaximal(rest);
      forall i | 0 < i < |segs| ensures Spell(segs[i..]) == Spell(Scan(rest)[i - 1..]) {
        assert segs[i..] == Scan(rest)[i - 1..];
      }
      assert segs[0..] == segs;
    }
  }

  /** The digit strings of the citation tokens in s, left to right. */
  function CitationsIn(s: string): seq<string>
  {
    Cited(Scan(s))
  }

  /** `refs[citationNumber]?.link`, the digit string used as a property key. */
  function LinkFor(d: string, refs: seq<Reference>): Option<string>
  {
    if IsIndexKey(d) && DecimalValue(d) < |refs| then refs[DecimalValue(d)].link else None
  }

  /** The token `[d]` turns into a link. */
  predicate Resolves(d: string, refs: seq<Reference>)
  {
    Truthy(LinkFor(d, refs))
  }

  /** The callback: a markdown link labelled `[d]` when the link is truthy, else `[d]` itself. */
  function Replacement(d: string, refs: seq<Reference>): string
  {
    var url := LinkFor(d, refs);
    if Truthy(url) then "[[" + d + "]](" + url.value + ")" else "[" + d + "]"
  }

  /** The global replace over the whole summary text. */
  function ReplaceCitations(s: string, refs: seq<Reference>): string
    decreases |s|
  {
    if s == [] then ""
    else match TokenAt(s)
      case Some(d) => Replacement(d, refs) + ReplaceCitations(s[|d| + 2..], refs)
      case None => [s[0]] + ReplaceCitations(s[1..], refs)
  }

  /** The output each segment produces. */
  function Rewrite(segs: seq<Segment>, refs: seq<Reference>): string
  {
    if segs == [] then ""
    else
      var out := match segs[0] case Char(c) => [c] case Citation(d) => Replacement(d, refs);
      out + Rewrite(segs[1..], refs)
  }

  /** A citation names a reference exactly when it spells an index of refs whose link is non-empty. */
  lemma ResolvesIff(d: string, refs: seq<Reference>)
    ensures Resolves(d, refs) <==>
      exists i :: 0 <= i < |refs| && d == Decimal(i) && Truthy(refs[i].link)
  {
    if Resolves(d, refs) {
      KeyNamesIndex(d, DecimalValue(d));
    }
    forall i | 0 <= i < |refs| && d == Decimal(i) && Truthy(refs[i].link) ensures Resolves(d, refs) {
      KeyNamesIndex(d, i);
    }
  }

  /** The token `[i]` for a reference i with a link becomes a markdown link to it. */
  lemma CitationOfIndex(i: nat, refs: seq<Reference>)
    requires i < |refs| && Truthy(refs[i].link)
    ensures Replacement(Decimal(i), refs) == "[[" + Decimal(i) + "]](" + refs[i].link.value + ")"
  {
    ValueOfDecimal(i);
  }

  /** The callback emits the match unchanged exactly when the citation does not resolve. */
  lemma LiteralExactlyWhenUnresolved(d: string, refs: seq<Reference>)
    ensures Replacement(d, refs) == "[" + d + "]" <==> !Resolves(d, refs)
  {
    if Resolves(d, refs) {
      assert |Replacement(d, refs)| > |"[" + d + "]"|;
    }
  }

  /** The token `[i]` for an index past the end, or for a reference without a link, stays as it is. */
  lemma OutOfRangeIsLiteral(i: nat, refs: seq<Reference>)
    requires i >= |refs| || !Truthy(refs[i].link)
    ensures Replacement(Decimal(i), refs) == "[" + Decimal(i) + "]"
  {
    ValueOfDecimal(i);
  }

  /** A citation with a leading zero never resolves, whatever refs holds. */
  lemma LeadingZeroIsLiteral(d: string, refs: seq<Reference>)
    requires 0 < |d| && AllDigits(d)
    ensures !Resolves("0" + d, refs)
    ensures Replacement("0" + d, refs) == "[0" + d + "]"
  {
  }

  /** Only the tokens change: the replace rewrites each scanned piece on its own. */
  lemma {:induction false} ReplaceBySegments(s: string, refs: seq<Reference>)
    ensures ReplaceCitations(s, refs) == Rewrite(Scan(s), refs)
    decreases |s|
  {
    if s != [] {
      match TokenAt(s)
      case Some(d) =>
        var segs := Scan(s);
        assert segs[0] == Citation(d) && segs[1..] == Scan(s[|d| + 2..]);
        ReplaceBySegments(s[|d| + 2..], refs);
      case None =>
        var segs := Scan(s);
        assert segs[0] == Char(s[0]) && segs[1..] == Scan(s[1..]);
        ReplaceBySegments(s[1..], refs);
    }
  }

  /** Characters before the first `[` are copied verbatim and do not affect what follows. */
  lemma {:induction false} PlainPrefixCopied(a: string, b: string, refs: seq<Reference>)
    requires '[' !in a
    ensures ReplaceCitations(a + b, refs) == a + ReplaceCitations(b, refs)
  {
    if a != [] {
      var s := a + b;
      assert s[0] == a[0] && s[0] != '[';
      assert TokenAt(s) == None;
      assert s[1..] == a[1..] + b;
      assert ReplaceCitations(s, refs) == [a[0]] + ReplaceCitations(a[1..] + b, refs);
      PlainPrefixCopied(a[1..], b, refs);
      assert [a[0]] + (a[1..] + ReplaceCitations(b, refs)) == a + ReplaceCitations(b, refs);
    } else {
      assert a + b == b;
    }
  }

  /** A token is replaced as a whole and scanning resumes right after it. */
  lemma TokenReplaced(d: string, b: string, refs: seq<Reference>)
    requires 0 < |d| && AllDigits(d)
    ensures ReplaceCitations("[" + d + "]" + b, refs) == Replacement(d, refs) + ReplaceCitations(b, refs)
  {
    var s := "[" + d + "]" + b;
    assert s[..|d| + 2] == "[" + d + "]";
    TokenAtIff(s, d);
    assert s[|d| + 2..] == b;
  }

  /** The replace never shortens the text, and it leaves the text as it was if no token resolves. */
  lemma {:induction false} ReplaceGrows(s: string, refs: seq<Reference>)
    ensures |ReplaceCitations(s, refs)| >= |s|
    ensures (forall d :: d in CitationsIn(s) ==> !Resolves(d, refs)) ==> ReplaceCitations(s, refs) == s
    ensures (exists d :: d in CitationsIn(s) && Resolves(d, refs)) ==> |ReplaceCitations(s, refs)| > |s|
    decreases |s|
  {
    if s != [] {
      var segs := Scan(s);
      match TokenAt(s)
      case Some(d) =>
        var rest := s[|d| + 2..];
        assert segs[0] == Citation(d) && segs[1..] == Scan(rest);
        assert CitationsIn(s) == [d] + CitationsIn(rest);
        assert d in CitationsIn(s);
        ReplaceGrows(rest, refs);
        assert s == "[" + d + "]" + rest;
      case None =>
        var rest := s[1..];
        assert segs[0] == Char(s[0]) && segs[1..] == Scan(rest);
        assert CitationsIn(s) == CitationsIn(rest);
        ReplaceGrows(rest, refs);
        assert s == [s[0]] + rest;
    }
  }

  /** The output equals the summary text exactly when none of its citations resolves. */
  lemma UnchangedIffNoneResolve(s: string, refs: seq<Reference>)
    ensures ReplaceCitations(s, refs) == s <==> forall d :: d in CitationsIn(s) ==> !Resolves(d, refs)
  {
    ReplaceGrows(s, refs);
  }

  /** Characters before the first `[` hold no citation. */
  lemma {:induction false} PlainPrefixNotCited(a: string, t: string)
    requires '[' !in a
    ensures CitationsIn(a + t) == CitationsIn(t)
  {
    if a != [] {
      var s := a + t;
      assert s[0] == a[0] && TokenAt(s) == None;
      assert s[1..] == a[1..] + t;
      assert Scan(s) == [Char(a[0])] + Scan(a[1..] + t);
      assert Cited(Scan(s)) == Cited(Scan(a[1..] + t));
      PlainPrefixNotCited(a[1..], t);
    } else {
      assert a + t == t;
    }
  }

  /** A token at the start of the text is the first citation found. */
  lemma TokenCited(d: string, b: string)
    requires 0 < |d| && AllDigits(d)
    ensures CitationsIn("[" + d + "]" + b) == [d] + CitationsIn(b)
  {
    var s := "[" + d + "]" + b;
    assert s[..|d| + 2] == "[" + d + "]";
    TokenAtIff(s, d);
    assert s[|d| + 2..] == b;
    assert Scan(s) == [Citation(d)] + Scan(b);
  }

  /** In plain text holding one token, only that token is replaced. */
  lemma OneCitation(a: string, d: string, b: string, refs: seq<Reference>)
    requires '[' !in a && '[' !in b && 0 < |d| && AllDigits(d)
    ensures ReplaceCitations(a + ("[" + d + "]" + b), refs) == a + (Replacement(d, refs) + b)
  {
    var t := "[" + d + "]" + b;
    PlainPrefixCopied(a, t, refs);
    TokenReplaced(d, b, refs);
    PlainPrefixCopied(b, "", refs);
    assert b + "" == b;
  }

  /** In plain text holding one token, that token is the only citation. */
  lemma OneCitationCited(a: string, d: string, b: string)
    requires '[' !in a && '[' !in b && 0 < |d| && AllDigits(d)
    ensures CitationsIn(a + ("[" + d + "]" + b)) == [d]
  {
    var t := "[" + d + "]" + b;
    PlainPrefixNotCited(a, t);
    TokenCited(d, b);
    PlainPrefixNotCited(b, "");
    assert b + "" == b;
  }
}
