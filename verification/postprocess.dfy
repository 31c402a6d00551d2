/**
 The two stream transforms of `worker/transcribee_worker/whisper_transcribe.py`
 that clean the published paragraphs, and their composition
 `transcribe_clean`. The async generators become functions on the whole
 sequence of paragraphs, in the order the producer delivers them.

 `recombine_split_words` glues a paragraph onto the previous one when its
 text does not start with whitespace (the engine cut a word in two);
 `remove_leading_whitespace_from_paragraph` strips the first atom's text of
 every paragraph and fails with an index error on a paragraph without atoms,
 after having yielded the paragraphs before it.
 */
module PostProcess {
  import opened Seqs
  import opened PyText
  import opened DocumentModel

  // ---------------------------------------------------------------------
  // recombine_split_words
  // ---------------------------------------------------------------------

  /** The test the generator writes, `not paragraph.text()[:1].strip()`. */
  predicate StripsToEmptyHead(p: Paragraph) {
    var t := ParagraphText(p);
    |Strip(t[..if |t| < 1 then |t| else 1])| == 0
  }

  /** The paragraph's text is empty or starts with a whitespace character. */
  predicate StartsWithWhitespace(p: Paragraph) {
    var t := ParagraphText(p);
    |t| == 0 || IsSpace(t[0])
  }

  /**
   The generator's test is exactly "empty or starting with whitespace": the
   model's merge decision, stated on the first character, is the one the
   source computes with slicing and `strip()`.
   */
  lemma StartsWithWhitespaceIsSourceTest(p: Paragraph)
    ensures StripsToEmptyHead(p) <==> StartsWithWhitespace(p)
  {
    var t := ParagraphText(p);
    if |t| > 0 {
      assert t[..1] == [t[0]];
    }
  }

  /** Paragraph `b` continues the word its predecessor ended with; the predecessor plays no part. */
  predicate Continues(a: Paragraph, b: Paragraph) {
    !StartsWithWhitespace(b)
  }

  /**
   `last_paragraph.children.extend(paragraph.children)`: speaker and
   language stay those of `last`; the text is `last`'s then `p`'s, the start
   stays `last`'s unless it had no atom, the end becomes `p`'s unless it has none.
   */
  function Merge(last: Paragraph, p: Paragraph): (r: Paragraph)
    ensures r.speaker == last.speaker && r.lang == last.lang
    ensures ParagraphText(r) == ParagraphText(last) + ParagraphText(p)
    ensures ParagraphStart(r) == (if |last.children| > 0 then ParagraphStart(last) else ParagraphStart(p))
    ensures ParagraphEnd(r) == (if |p.children| > 0 then ParagraphEnd(p) else ParagraphEnd(last))
  {
    ChildrenConcat(last, p, last.speaker, last.lang);
    Paragraph(last.speaker, last.children + p.children, last.lang)
  }

  /** The generator's loop from the held-back paragraph `last` over the remaining input `ps`. */
  function RecombineFrom(last: Paragraph, ps: seq<Paragraph>): (r: seq<Paragraph>)
    ensures 0 < |r| <= 1 + |ps|
    ensures r[0].speaker == last.speaker && r[0].lang == last.lang
    decreases |ps|
  {
    if |ps| == 0 then [last]
    else if StartsWithWhitespace(ps[0]) then [last] + RecombineFrom(ps[0], ps[1..])
    else RecombineFrom(Merge(last, ps[0]), ps[1..])
  }

  /** `recombine_split_words`, as the sequence of paragraphs it yields. */
  function RecombineSplitWords(ps: seq<Paragraph>): (r: seq<Paragraph>)
    ensures |r| == 0 <==> |ps| == 0
    ensures |r| <= |ps|
  {
    if |ps| == 0 then [] else RecombineFrom(ps[0], ps[1..])
  }

  /** Reference: one paragraph per run, with the first paragraph's speaker and language and all the run's atoms. */
  function MergeRuns(runs: seq<seq<Paragraph>>): (r: seq<Paragraph>)
    requires forall k :: 0 <= k < |runs| ==> |runs[k]| > 0
    ensures |r| == |runs|
    ensures forall k :: 0 <= k < |runs| ==>
              r[k] == Paragraph(runs[k][0].speaker, AllChildren(runs[k]), runs[k][0].lang)
    decreases |runs|
  {
    if |runs| == 0 then []
    else [Paragraph(runs[0][0].speaker, AllChildren(runs[0]), runs[0][0].lang)] + MergeRuns(runs[1..])
  }

  /** The reference for the loop from held-back paragraph `last`: the runs of `ps`, the first one merged into `last` when it continues it. */
  function FromRuns(last: Paragraph, ps: seq<Paragraph>): seq<Paragraph> {
    var runs := Split(ps, Continues);
    if |ps| > 0 && Continues(last, ps[0])
    then [Paragraph(last.speaker, last.children + AllChildren(runs[0]), last.lang)] + MergeRuns(runs[1..])
    else [last] + MergeRuns(runs)
  }

  /** A paragraph that starts with whitespace closes the held-back one and is held back itself. */
  lemma FromRunsOpen(last: Paragraph, ps: seq<Paragraph>)
    requires |ps| > 0 && StartsWithWhitespace(ps[0])
    ensures FromRuns(last, ps) == [last] + FromRuns(ps[0], ps[1..])
  {
    var p := ps[0];
    var rest := Split(ps[1..], Continues);
    var runs := Split(ps, Continues);
    if |rest| > 0 && Continues(p, ps[1]) {
      assert runs == [[p] + rest[0]] + rest[1..];
      AllChildrenCons(p, rest[0]);
      assert MergeRuns(runs) == FromRuns(p, ps[1..]);
    } else {
      assert runs == [[p]] + rest;
      assert AllChildren([p]) == p.children;
      assert MergeRuns(runs) == FromRuns(p, ps[1..]);
    }
  }

  /** A paragraph that continues a word is merged into the held-back one. */
  lemma FromRunsJoin(last: Paragraph, ps: seq<Paragraph>)
    requires |ps| > 0 && !StartsWithWhitespace(ps[0])
    ensures FromRuns(last, ps) == FromRuns(Merge(last, ps[0]), ps[1..])
  {
    FromRunsExtend(last, ps);
  }

  /** `FromRunsJoin` with the merged paragraph written out. */
  lemma FromRunsExtend(last: Paragraph, ps: seq<Paragraph>)
    requires |ps| > 0 && !StartsWithWhitespace(ps[0])
    ensures FromRuns(last, ps) == FromRuns(Paragraph(last.speaker, last.children + ps[0].children, last.lang), ps[1..])
  {
    var p := ps[0];
    var rest := Split(ps[1..], Continues);
    var runs := Split(ps, Continues);
    var merged := Paragraph(last.speaker, last.children + p.children, last.lang);
    if |rest| > 0 && Continues(p, ps[1]) {
      assert runs == [[p] + rest[0]] + rest[1..];
      assert runs[1..] == rest[1..];
      AllChildrenCons(p, rest[0]);
      assert merged.children + AllChildren(rest[0]) == last.children + AllChildren(runs[0]);
    } else {
      assert runs == [[p]] + rest;
      assert AllChildren([p]) == p.children;
    }
  }

  lemma {:induction false} RecombineFromRuns(last: Paragraph, ps: seq<Paragraph>)
    ensures RecombineFrom(last, ps) == FromRuns(last, ps)
    decreases |ps|
  {
    if |ps| > 0 {
      if StartsWithWhitespace(ps[0]) {
        RecombineFromRuns(ps[0], ps[1..]);
        FromRunsOpen(last, ps);
      } else {
        RecombineFromRuns(Merge(last, ps[0]), ps[1..]);
        FromRunsJoin(last, ps);
      }
    }
  }

  /**
   The paragraphs `recombine_split_words` yields are exactly the maximal runs
   of input paragraphs in which every paragraph after the first continues a
   word, each merged into its first paragraph.
   */
  lemma RecombineIsMergedRuns(ps: seq<Paragraph>)
    ensures RecombineSplitWords(ps) == MergeRuns(Split(ps, Continues))
  {
    if |ps| > 0 {
      var p := ps[0];
      var rest := Split(ps[1..], Continues);
      RecombineFromRuns(p, ps[1..]);
      if |rest| > 0 && Continues(p, ps[1]) {
        AllChildrenCons(p, rest[0]);
      } else {
        assert AllChildren([p]) == p.children;
      }
    }
  }

  /** Number of paragraphs in `ps` whose text starts with whitespace or is empty. */
  function WhitespaceStarts(ps: seq<Paragraph>): nat
    decreases |ps|
  {
    if |ps| == 0 then 0 else (if StartsWithWhitespace(ps[0]) then 1 else 0) + WhitespaceStarts(ps[1..])
  }

  lemma {:induction false} BreaksAreWhitespaceStarts(ps: seq<Paragraph>)
    requires |ps| > 0
    ensures Breaks(ps, Continues) == WhitespaceStarts(ps[1..])
    decreases |ps|
  {
    if |ps| >= 2 {
      BreaksAreWhitespaceStarts(ps[1..]);
      assert ps[1..][1..] == ps[2..];
    }
  }

  lemma {:induction false} MergeRunsChildren(runs: seq<seq<Paragraph>>)
    requires forall k :: 0 <= k < |runs| ==> |runs[k]| > 0
    ensures AllChildren(MergeRuns(runs)) == AllChildren(Flatten(runs))
    decreases |runs|
  {
    if |runs| > 0 {
      MergeRunsChildren(runs[1..]);
      AllChildrenAppend(runs[0], Flatten(runs[1..]));
      assert MergeRuns(runs)[1..] == MergeRuns(runs[1..]);
    }
  }

  /**
   What `recombine_split_words` keeps: nothing in, nothing out; one
   paragraph per whitespace start after the first paragraph, plus one; and
   all atoms and the whole text, in order.
   */
  lemma RecombineKeepsContent(ps: seq<Paragraph>)
    ensures var r := RecombineSplitWords(ps);
            && (|r| == 0 <==> |ps| == 0)
            && (|ps| > 0 ==> |r| == 1 + WhitespaceStarts(ps[1..]))
            && AllChildren(r) == AllChildren(ps)
            && ParagraphsText(r) == ParagraphsText(ps)
  {
    var runs := Split(ps, Continues);
    var r := RecombineSplitWords(ps);
    RecombineIsMergedRuns(ps);
    SplitFlatten(ps, Continues);
    SplitCount(ps, Continues);
    MergeRunsChildren(runs);
    ParagraphsTextIsAtomTexts(r);
    ParagraphsTextIsAtomTexts(ps);
    if |ps| > 0 {
      BreaksAreWhitespaceStarts(ps);
    }
  }

  /**
   The first paragraph is never merged into anything: it opens the first
   output paragraph, whose speaker and language are its own and whose atoms
   start with its atoms.
   */
  lemma RecombineKeepsFirst(ps: seq<Paragraph>)
    requires |ps| > 0
    ensures var r := RecombineSplitWords(ps);
            && r[0].speaker == ps[0].speaker && r[0].lang == ps[0].lang
            && ps[0].children <= r[0].children
  {
    var runs := Split(ps, Continues);
    RecombineIsMergedRuns(ps);
    assert runs[0][0] == ps[0];
    assert runs[0] == [ps[0]] + runs[0][1..];
    AllChildrenCons(ps[0], runs[0][1..]);
  }

  /**
   Each output paragraph is one run of consecutive input paragraphs, read
   in order: it has the opening paragraph's speaker and language and all
   the run's atoms.
   */
  lemma RecombineMergesRuns(ps: seq<Paragraph>)
    ensures var runs := Split(ps, Continues);
            && Flatten(runs) == ps
            && |runs| == |RecombineSplitWords(ps)|
            && (forall k :: 0 <= k < |runs| ==>
                  RecombineSplitWords(ps)[k] == Paragraph(runs[k][0].speaker, AllChildren(runs[k]), runs[k][0].lang))
  {
    RecombineIsMergedRuns(ps);
    SplitFlatten(ps, Continues);
  }

  /**
   A run opens at the first paragraph and at every paragraph that starts
   with whitespace (or is empty), and only there.
   */
  lemma RunsOpenAtWhitespace(ps: seq<Paragraph>)
    ensures var runs := Split(ps, Continues);
            && (forall k :: 0 < k < |runs| ==> StartsWithWhitespace(runs[k][0]))
            && (forall k, j :: 0 <= k < |runs| && 0 < j < |runs[k]| ==> !StartsWithWhitespace(runs[k][j]))
  {
    SplitJoinsWithin(ps, Continues);
    SplitBreaksBetween(ps, Continues);
  }

  // ---------------------------------------------------------------------
  // remove_leading_whitespace_from_paragraph
  // ---------------------------------------------------------------------

  /**
   The outcome of a stream transform that can fail: the paragraphs it
   yielded, and whether it then raised instead of finishing.
   */
  datatype Trimmed = Trimmed(yielded: seq<Paragraph>, raised: bool)

  /** `paragraph.children[0].text = paragraph.children[0].text.strip()`. */
  function TrimFirst(p: Paragraph): (r: Paragraph)
    requires |p.children| > 0
    ensures IsTrimmedFrom(r, p)
    ensures ParagraphStart(r) == ParagraphStart(p) && ParagraphEnd(r) == ParagraphEnd(p)
  {
    var a := p.children[0];
    Paragraph(p.speaker, [a.(text := Strip(a.text))] + p.children[1..], p.lang)
  }

  /**
   `q` is `p` with the first atom's text stripped at both ends and nothing
   else changed.
   */
  predicate IsTrimmedFrom(q: Paragraph, p: Paragraph) {
    && |p.children| > 0
    && q.speaker == p.speaker && q.lang == p.lang
    && |q.children| == |p.children|
    && q.children[0].text == Strip(p.children[0].text)
    && q.children[0].start == p.children[0].start && q.children[0].end == p.children[0].end
    && q.children[0].conf == p.children[0].conf
    && q.children[1..] == p.children[1..]
  }

  /** Index of the first paragraph without atoms, or `|ps|` when there is none. */
  function FirstChildless(ps: seq<Paragraph>): (i: nat)
    ensures i <= |ps|
    ensures forall j :: 0 <= j < i ==> |ps[j].children| > 0
    ensures i < |ps| ==> |ps[i].children| == 0
    decreases |ps|
  {
    if |ps| == 0 then 0
    else if |ps[0].children| == 0 then 0
    else 1 + FirstChildless(ps[1..])
  }

  /**
   `remove_leading_whitespace_from_paragraph`: every paragraph up to the
   first one without atoms is yielded with its first atom stripped; that
   paragraph raises, and nothing after it is seen.
   */
  function RemoveLeadingWhitespace(ps: seq<Paragraph>): (r: Trimmed)
    ensures r.raised <==> exists i :: 0 <= i < |ps| && |ps[i].children| == 0
    ensures |r.yielded| == FirstChildless(ps)
    ensures forall i :: 0 <= i < |r.yielded| ==> IsTrimmedFrom(r.yielded[i], ps[i])
    decreases |ps|
  {
    if |ps| == 0 then Trimmed([], false)
    else if |ps[0].children| == 0 then Trimmed([], true)
    else
      var rest := RemoveLeadingWhitespace(ps[1..]);
      ChildlessShift(ps);
      TrimmedShift(ps[0], ps, rest.yielded);
      Trimmed([TrimFirst(ps[0])] + rest.yielded, rest.raised)
  }

  /** Past a paragraph with atoms, a childless paragraph is in `ps` exactly when it is in `ps[1..]`. */
  lemma ChildlessShift(ps: seq<Paragraph>)
    requires |ps| > 0 && |ps[0].children| > 0
    ensures (exists i :: 0 <= i < |ps| && |ps[i].children| == 0)
        <==> (exists i :: 0 <= i < |ps[1..]| && |ps[1..][i].children| == 0)
  {
    if i :| 0 <= i < |ps| && |ps[i].children| == 0 {
      assert ps[1..][i - 1] == ps[i];
    }
  }

  /** Consing the trimmed head onto a stream trimmed from `ps[1..]` gives one trimmed from `ps`. */
  lemma TrimmedShift(p: Paragraph, ps: seq<Paragraph>, ys: seq<Paragraph>)
    requires |ps| > 0 && p == ps[0] && |p.children| > 0
    requires |ys| <= |ps| - 1
    requires forall i :: 0 <= i < |ys| ==> IsTrimmedFrom(ys[i], ps[1..][i])
    ensures forall i :: 0 <= i < |[TrimFirst(p)] + ys| ==> IsTrimmedFrom(([TrimFirst(p)] + ys)[i], ps[i])
  {
    forall i | 0 <= i < |[TrimFirst(p)] + ys|
      ensures IsTrimmedFrom(([TrimFirst(p)] + ys)[i], ps[i])
    {
      if i > 0 {
        assert ps[1..][i - 1] == ps[i];
      }
    }
  }

  /** The text of a trimmed paragraph: the stripped first atom, then the other atoms unchanged. */
  lemma TrimmedText(q: Paragraph, p: Paragraph)
    requires IsTrimmedFrom(q, p)
    ensures ParagraphText(q) == Strip(p.children[0].text) + Texts(p.children[1..])
  {
    assert q.children == [q.children[0]] + q.children[1..];
    assert Texts(q.children) == q.children[0].text + Texts(q.children[1..]);
  }

  /** Trimming a stream that was already trimmed changes nothing more. */
  lemma {:induction false} RemoveLeadingWhitespaceIdempotent(ps: seq<Paragraph>)
    requires !RemoveLeadingWhitespace(ps).raised
    ensures RemoveLeadingWhitespace(RemoveLeadingWhitespace(ps).yielded) == RemoveLeadingWhitespace(ps)
    decreases |ps|
  {
    if |ps| > 0 {
      var q := TrimFirst(ps[0]);
      StripIdempotent(ps[0].children[0].text);
      RemoveLeadingWhitespaceIdempotent(ps[1..]);
      var ys := RemoveLeadingWhitespace(ps).yielded;
      assert ys == [q] + RemoveLeadingWhitespace(ps[1..]).yielded;
      assert ys[1..] == RemoveLeadingWhitespace(ps[1..]).yielded;
      assert TrimFirst(q) == q;
    }
  }

  // ---------------------------------------------------------------------
  // transcribe_clean
  // ---------------------------------------------------------------------

  /**
   `transcribe_clean`: split-word recombination, then trimming, over the
   published paragraphs. It never yields more paragraphs than it receives,
   and on no input it yields nothing and does not fail.
   */
  function TranscribeClean(ps: seq<Paragraph>): (r: Trimmed)
    ensures |r.yielded| <= |ps|
    ensures |ps| == 0 ==> r == Trimmed([], false)
  {
    RemoveLeadingWhitespace(RecombineSplitWords(ps))
  }

  /**
   The cleaned stream fails exactly when some run of paragraphs that
   recombination merges into one has no atoms at all.
   */
  lemma TranscribeCleanRaises(ps: seq<Paragraph>)
    ensures var runs := Split(ps, Continues);
            TranscribeClean(ps).raised <==> exists k :: 0 <= k < |runs| && |AllChildren(runs[k])| == 0
  {
    var runs := Split(ps, Continues);
    var r := RecombineSplitWords(ps);
    RecombineIsMergedRuns(ps);
    forall i | 0 <= i < |r| ensures r[i].children == AllChildren(runs[i]) {
    }
  }

  /** When the cleaned stream does not fail, it yields one paragraph per run and every atom of the input. */
  lemma TranscribeCleanKeepsAtoms(ps: seq<Paragraph>)
    ensures var out := TranscribeClean(ps);
            !out.raised ==>
              && |out.yielded| == |Split(ps, Continues)|
              && |AllChildren(out.yielded)| == |AllChildren(ps)|
  {
    var r := RecombineSplitWords(ps);
    if !TranscribeClean(ps).raised {
      RecombineIsMergedRuns(ps);
      RecombineKeepsContent(ps);
      YieldedChildren(r);
    }
  }

  /**
   Every paragraph the cleaned stream yields is one run of input paragraphs
   merged into one (opening paragraph's speaker and language, all the run's
   atoms) with its first atom stripped at both ends; so that atom's text
   neither starts nor ends with whitespace.
   */
  lemma TranscribeCleanYieldsTrimmedRuns(ps: seq<Paragraph>)
    ensures var out := TranscribeClean(ps);
            var runs := Split(ps, Continues);
            && |out.yielded| <= |runs|
            && forall k :: 0 <= k < |out.yielded| ==>
                 IsTrimmedFrom(out.yielded[k], Paragraph(runs[k][0].speaker, AllChildren(runs[k]), runs[k][0].lang))
    ensures var out := TranscribeClean(ps);
            forall k :: 0 <= k < |out.yielded| ==>
              var t := out.yielded[k].children[0].text;
              |t| > 0 ==> !IsSpace(t[0]) && !IsSpace(t[|t| - 1])
  {
    RecombineIsMergedRuns(ps);
  }

  /** Trimming keeps the number of atoms of every yielded paragraph; so a fully yielded stream with atoms keeps some. */
  lemma {:induction false} YieldedChildren(ps: seq<Paragraph>)
    requires !RemoveLeadingWhitespace(ps).raised
    ensures |AllChildren(RemoveLeadingWhitespace(ps).yielded)| == |AllChildren(ps)|
    decreases |ps|
  {
    if |ps| > 0 {
      YieldedChildren(ps[1..]);
      var ys := RemoveLeadingWhitespace(ps).yielded;
      assert ys[1..] == RemoveLeadingWhitespace(ps[1..]).yielded;
    }
  }

  /**
   The index error is reachable: a paragraph without atoms followed by one
   that starts with whitespace is not merged away, and the trimmer fails on
   it before yielding anything.
   */
  lemma EmptyParagraphRaises(speaker: string, lang: string, a: Atom)
    requires |a.text| > 0 && IsSpace(a.text[0])
    ensures var ps := [Paragraph(speaker, [], lang), Paragraph(speaker, [a], lang)];
            TranscribeClean(ps) == Trimmed([], true)
  {
    var e := Paragraph(speaker, [], lang);
    var p := Paragraph(speaker, [a], lang);
    assert ParagraphText(p) == a.text by {
      assert Texts([a]) == a.text + Texts([]);
    }
    assert [e, p][1..] == [p];
    assert RecombineSplitWords([e, p]) == [e] + RecombineFrom(p, []);
  }
}
