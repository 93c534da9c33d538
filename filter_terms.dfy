/**
 * Turning the comma-separated keyword and exclusion inputs into term lists:
 * split on ",", strip each piece, drop the pieces that strip to nothing.
 */
module FilterTerms {
  import opened PyStrings

  /** A term as parsing can produce it: non-empty, comma-free, no surrounding whitespace. */
  predicate CleanTerm(t: string)
  {
    t != "" && ',' !in t && NoOuterSpace(t)
  }

  /** `lstrip` adds no character the input lacks. */
  lemma {:induction false} LStripKeepsAbsent(s: string, chars: set<char>, c: char)
    requires c !in s
    ensures c !in LStrip(s, chars)
    decreases |s|
  {
    if |s| > 0 && s[0] in chars {
      LStripKeepsAbsent(s[1..], chars, c);
    }
  }

  /** `rstrip` adds no character the input lacks. */
  lemma {:induction false} RStripKeepsAbsent(s: string, chars: set<char>, c: char)
    requires c !in s
    ensures c !in RStrip(s, chars)
    decreases |s|
  {
    if |s| > 0 && s[|s| - 1] in chars {
      RStripKeepsAbsent(s[..|s| - 1], chars, c);
    }
  }

  /** Stripping keeps a character only if the input had it. */
  lemma StripKeepsAbsent(s: string, c: char)
    requires c !in s
    ensures c !in Strip(s)
  {
    LStripKeepsAbsent(s, Whitespace, c);
    RStripKeepsAbsent(LStrip(s, Whitespace), Whitespace, c);
  }

  /** `[p.strip() for p in pieces]`. */
  function StripEach(pieces: seq<string>): (r: seq<string>)
    ensures |r| == |pieces|
    ensures forall k :: 0 <= k < |r| ==> r[k] == Strip(pieces[k])
  {
    seq(|pieces|, k requires 0 <= k < |pieces| => Strip(pieces[k]))
  }

  /** Term `k` is piece `k` with its surrounding whitespace cut off, and no more. */
  lemma StripEachTrims(pieces: seq<string>, k: nat)
    requires k < |pieces|
    ensures NoOuterSpace(StripEach(pieces)[k])
    ensures exists a :: TrimmedAt(pieces[k], StripEach(pieces)[k], a)
  {
    StripIsTrimmed(pieces[k]);
  }

  /** `[t for t in terms if t]`: the non-empty terms, in order. */
  function NonEmptyOnly(terms: seq<string>): (r: seq<string>)
    ensures |r| <= |terms|
    ensures forall k :: 0 <= k < |r| ==> r[k] != "" && r[k] in terms
    decreases |terms|
  {
    if terms == [] then []
    else (if terms[0] == "" then [] else [terms[0]]) + NonEmptyOnly(terms[1..])
  }

  /** Stripping comma-free pieces and dropping the empty ones leaves only clean terms. */
  lemma StrippedPiecesClean(pieces: seq<string>)
    requires forall j :: 0 <= j < |pieces| ==> ',' !in pieces[j]
    ensures forall t :: t in NonEmptyOnly(StripEach(pieces)) ==> CleanTerm(t)
  {
    var stripped := StripEach(pieces);
    forall t | t in NonEmptyOnly(stripped) ensures CleanTerm(t) {
      var j :| 0 <= j < |stripped| && stripped[j] == t;
      StripKeepsAbsent(pieces[j], ',');
    }
  }

  /** `[k.strip() for k in text.split(",") if k.strip()]`. */
  function ParseTerms(text: string): (r: seq<string>)
    ensures forall k :: 0 <= k < |r| ==> CleanTerm(r[k])
  {
    var pieces := Split(text, ',');
    StrippedPiecesClean(pieces);
    NonEmptyOnly(StripEach(pieces))
  }

  lemma StripEachConcat(a: seq<string>, b: seq<string>)
    ensures StripEach(a + b) == StripEach(a) + StripEach(b)
  {
    var l := StripEach(a + b);
    var r := StripEach(a) + StripEach(b);
    forall k | 0 <= k < |l| ensures l[k] == r[k] {
      if k < |a| {
        assert (a + b)[k] == a[k];
      } else {
        assert (a + b)[k] == b[k - |a|];
      }
    }
  }

  lemma {:induction false} NonEmptyOnlyConcat(a: seq<string>, b: seq<string>)
    ensures NonEmptyOnly(a + b) == NonEmptyOnly(a) + NonEmptyOnly(b)
    decreases |a|
  {
    if a == [] {
      assert a + b == b;
    } else {
      var head := if a[0] == "" then [] else [a[0]];
      assert (a + b)[1..] == a[1..] + b;
      calc {
        NonEmptyOnly(a + b);
        head + NonEmptyOnly(a[1..] + b);
        { NonEmptyOnlyConcat(a[1..], b); }
        head + (NonEmptyOnly(a[1..]) + NonEmptyOnly(b));
        (head + NonEmptyOnly(a[1..])) + NonEmptyOnly(b);
      }
    }
  }

  /** A list without empty terms passes the filter unchanged. */
  lemma {:induction false} NonEmptyOnlyKeepsAll(terms: seq<string>)
    requires forall k :: 0 <= k < |terms| ==> terms[k] != ""
    ensures NonEmptyOnly(terms) == terms
    decreases |terms|
  {
    if terms != [] {
      NonEmptyOnlyKeepsAll(terms[1..]);
      assert [terms[0]] + terms[1..] == terms;
    }
  }

  /** Clean terms are their own `strip()`. */
  lemma StripEachOfClean(terms: seq<string>)
    requires forall k :: 0 <= k < |terms| ==> CleanTerm(terms[k])
    ensures StripEach(terms) == terms
  {
    forall k | 0 <= k < |terms| ensures Strip(terms[k]) == terms[k] {
      StripClean(terms[k]);
    }
  }

  /**
   * Order is kept: the terms of `a + "," + b` are the terms of `a` followed by
   * those of `b`.
   */
  lemma ParseTermsConcat(a: string, b: string)
    ensures ParseTerms(a + "," + b) == ParseTerms(a) + ParseTerms(b)
  {
    SplitAtSeparator(a, b, ',');
    StripEachConcat(Split(a, ','), Split(b, ','));
    NonEmptyOnlyConcat(StripEach(Split(a, ',')), StripEach(Split(b, ',')));
  }

  /** A comma-free input gives its stripped self, or nothing when that is empty. */
  lemma ParseTermsSingle(text: string)
    requires ',' !in text
    ensures ParseTerms(text) == if Strip(text) == "" then [] else [Strip(text)]
  {
    SplitNoSeparator(text, ',');
  }

  /** Parsing undoes joining clean terms with ",": `parse(",".join(terms)) == terms`. */
  lemma ParseJoinRoundTrip(terms: seq<string>)
    requires forall k :: 0 <= k < |terms| ==> CleanTerm(terms[k])
    ensures ParseTerms(Join(",", terms)) == terms
  {
    if terms == [] {
      assert Split("", ',') == [""];
    } else {
      SplitJoin(terms, ',');
      StripEachOfClean(terms);
      NonEmptyOnlyKeepsAll(terms);
    }
  }

  /** Parsing the comma-join of parsed terms gives the same terms back. */
  lemma ParseTermsStable(text: string)
    ensures ParseTerms(Join(",", ParseTerms(text))) == ParseTerms(text)
  {
    ParseJoinRoundTrip(ParseTerms(text));
  }
}
