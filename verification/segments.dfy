/**
 The paragraph builder of `handle_new_segment` in
 `worker/transcribee_worker/whisper_transcribe.py`: one callback turns the
 `n_new` newest segments of the engine into one paragraph each, running the
 token recombiner of `Recombiner` over them with a single tail that is
 created once per callback, so an incomplete character at the end of one
 segment is completed by the next segment's tokens; whatever is left in the
 tail when the callback ends is dropped.

 The engine's segments, the detected language and the special token ids are
 inputs. `Atom` has no `conf_ts` field, so the timestamp confidence the
 worker passes is dropped. `Paragraph` requires a `speaker` that the worker
 does not pass; the builder here takes it as a parameter.
 */
module SegmentBuilder {
  import opened Options
  import opened Seqs
  import opened Utf8
  import opened Recombiner
  import opened DocumentModel

  /** The tokens of one engine segment, in order. */
  type Segment = seq<Token>

  /** The language codes that ask for the engine's own detection. */
  predicate IsAutoLang(langCode: Option<string>) {
    langCode == None || langCode == Some("") || langCode == Some("auto")
  }

  /**
   The language every paragraph of a callback is tagged with: the detected
   one when the configured code is `None`, empty or `"auto"`, the configured
   code otherwise; a placeholder code never survives unless the engine itself
   reports it.
   */
  function ResolveLang(langCode: Option<string>, detected: string): (lang: string)
    ensures IsAutoLang(langCode) ==> lang == detected
    ensures !IsAutoLang(langCode) ==> langCode == Some(lang)
    ensures lang == "" || lang == "auto" ==> lang == detected
  {
    if IsAutoLang(langCode) then detected else langCode.value
  }

  /** The atom built from an emitted unit; its `confTs` has no field to go to. */
  function ToAtom(u: TextUnit): Atom {
    Atom(u.text, u.start, u.end, u.conf)
  }

  /** The atoms of a sequence of units. */
  function Atoms(us: seq<TextUnit>): (r: seq<Atom>)
    ensures |r| == |us|
    ensures forall i :: 0 <= i < |us| ==> r[i].text == us[i].text && r[i].conf == us[i].conf
    ensures forall i :: 0 <= i < |us| ==> r[i].start == us[i].start && r[i].end == us[i].end
  {
    MapSeq(ToAtom, us)
  }

  /**
   The per-segment loop of one callback, starting from tail `st`: one
   paragraph per segment, in order, each holding the atoms its tokens emit.
   */
  function Paragraphs(st: Tail, segs: seq<Segment>, sp: SpecialTokens, lang: string, speaker: string): (r: seq<Paragraph>)
    ensures |r| == |segs|
    ensures forall i :: 0 <= i < |r| ==> r[i].lang == lang && r[i].speaker == speaker
    decreases |segs|
  {
    if |segs| == 0 then []
    else
      var run := Run(st, segs[0], sp);
      [Paragraph(speaker, Atoms(run.units), lang)] + Paragraphs(run.tail, segs[1..], sp, lang, speaker)
  }

  /** The segments a callback walks: the last `nNew` ones, none when `nNew` is not positive. */
  function NewSegments(segs: seq<Segment>, nNew: int): (r: seq<Segment>)
    requires nNew <= |segs|
    ensures |r| == if nNew <= 0 then 0 else nNew
    ensures nNew > 0 ==> r == segs[|segs| - nNew..]
  {
    if nNew <= 0 then [] else segs[|segs| - nNew..]
  }

  /**
   One call of `handle_new_segment` on an engine holding `segs`: exactly
   `nNew` paragraphs (none for a non-positive count), for the newest
   segments in order, all with the resolved language and the given speaker.
   The engine never reports more new segments than it holds.
   */
  function HandleNewSegment(segs: seq<Segment>, nNew: int, langCode: Option<string>, detected: string,
                            sp: SpecialTokens, speaker: string): (r: seq<Paragraph>)
    requires nNew <= |segs|
    ensures |r| == if nNew <= 0 then 0 else nNew
    ensures forall i :: 0 <= i < |r| ==> r[i].lang == ResolveLang(langCode, detected) && r[i].speaker == speaker
  {
    Paragraphs(EmptyTail, NewSegments(segs, nNew), sp, ResolveLang(langCode, detected), speaker)
  }

  // ---------------------------------------------------------------------
  // The tail crosses segment boundaries.
  // ---------------------------------------------------------------------

  /** The atoms of the paragraphs, read in order, are the atoms of one run over all their tokens. */
  lemma {:induction false} ParagraphsAreOneRun(st: Tail, segs: seq<Segment>, sp: SpecialTokens, lang: string, speaker: string)
    ensures AllChildren(Paragraphs(st, segs, sp, lang, speaker)) == Atoms(Run(st, Flatten(segs), sp).units)
    decreases |segs|
  {
    if |segs| > 0 {
      var run := Run(st, segs[0], sp);
      var rest := Paragraphs(run.tail, segs[1..], sp, lang, speaker);
      ParagraphsAreOneRun(run.tail, segs[1..], sp, lang, speaker);
      RunAppend(st, segs[0], Flatten(segs[1..]), sp);
      var tailRun := Run(run.tail, Flatten(segs[1..]), sp);
      MapSeqAppend(ToAtom, run.units, tailRun.units);
      assert Paragraphs(st, segs, sp, lang, speaker)[1..] == rest;
    }
  }

  /**
   The atoms a callback publishes, read in order, are the units of the
   decodable groups of all kept tokens of the new segments taken as one
   stream: a character split across two segments becomes one atom, and the
   undecodable leftover at the end is dropped.
   */
  lemma CallbackAtomsAreGroups(segs: seq<Segment>, nNew: int, langCode: Option<string>, detected: string,
                               sp: SpecialTokens, speaker: string)
    requires nNew <= |segs|
    ensures var kept := Kept(Flatten(NewSegments(segs, nNew)), sp);
            AllChildren(HandleNewSegment(segs, nNew, langCode, detected, sp, speaker))
            == Atoms(UnitsOf(Groups(kept)))
  {
    var news := NewSegments(segs, nNew);
    ParagraphsAreOneRun(EmptyTail, news, sp, ResolveLang(langCode, detected), speaker);
    RunMatchesGroups(Flatten(news), sp);
  }

  /** The tail the callback carries into segment `i`. */
  function TailBefore(st: Tail, segs: seq<Segment>, i: nat, sp: SpecialTokens): Tail
    requires i <= |segs|
  {
    Run(st, Flatten(segs[..i]), sp).tail
  }

  /**
   Paragraph `i` holds exactly the atoms segment `i` emits when the loop
   enters it with the tail the earlier segments left.
   */
  lemma {:induction false} ParagraphAt(st: Tail, segs: seq<Segment>, i: nat, sp: SpecialTokens, lang: string, speaker: string)
    requires i < |segs|
    ensures Paragraphs(st, segs, sp, lang, speaker)[i].children ==
            Atoms(Run(TailBefore(st, segs, i, sp), segs[i], sp).units)
    decreases i
  {
    var run := Run(st, segs[0], sp);
    if i == 0 {
      assert segs[..0] == [];
      assert Flatten(segs[..0]) == [];
    } else {
      ParagraphAt(run.tail, segs[1..], i - 1, sp, lang, speaker);
      assert segs[..i] == [segs[0]] + segs[1..][..i - 1];
      assert Flatten(segs[..i]) == segs[0] + Flatten(segs[1..][..i - 1]);
      RunAppend(st, segs[0], Flatten(segs[1..][..i - 1]), sp);
    }
  }

  /** The texts of the atoms are the texts of the units. */
  lemma {:induction false} AtomsTexts(us: seq<TextUnit>)
    ensures Texts(Atoms(us)) == UnitTexts(us)
    decreases |us|
  {
    if |us| > 0 {
      AtomsTexts(us[1..]);
      assert Atoms(us)[1..] == Atoms(us[1..]);
    }
  }

  /**
   When the kept bytes of the segments before `i` decode as a whole, no
   tail reaches segment `i`, and paragraph `i` is what that segment alone
   would give; when its own kept bytes decode too, its text is their
   decoding.
   */
  lemma ParagraphStandsAlone(segs: seq<Segment>, i: nat, sp: SpecialTokens, lang: string, speaker: string)
    requires i < |segs|
    requires Valid(Bytes(Kept(Flatten(segs[..i]), sp)))
    ensures var p := Paragraphs(EmptyTail, segs, sp, lang, speaker)[i];
            p.children == Atoms(Run(EmptyTail, segs[i], sp).units)
    ensures Valid(Bytes(Kept(segs[i], sp))) ==>
              ParagraphText(Paragraphs(EmptyTail, segs, sp, lang, speaker)[i]) == Decode(Bytes(Kept(segs[i], sp)))
  {
    ParagraphAt(EmptyTail, segs, i, sp, lang, speaker);
    RecombineDecodes(Flatten(segs[..i]), sp);
    AtomsTexts(Run(EmptyTail, segs[i], sp).units);
    if Valid(Bytes(Kept(segs[i], sp))) {
      RecombineDecodes(segs[i], sp);
    }
  }

  /**
   The as-written carry across segments: a segment ending in the lead byte
   of "é" publishes an empty paragraph, and the next segment's continuation
   byte completes the character in its own paragraph.
   */
  lemma SplitAcrossSegments(sp: SpecialTokens, a: Token, b: Token, langCode: Option<string>, detected: string, speaker: string)
    requires !Skipped(a, sp) && !Skipped(b, sp)
    requires a.bytes == [0xC3] && b.bytes == [0xA9]
    ensures var r := HandleNewSegment([[a], [b]], 2, langCode, detected, sp, speaker);
            && |r[0].children| == 0
            && r[1].children == [Atom("\U{E9}", b.t0 / 100.0, b.t1 / 100.0, (a.p + b.p) / 2.0)]
  {
    var segs: seq<Segment> := [[a], [b]];
    assert NewSegments(segs, 2) == segs;
    var first := Run(EmptyTail, [a], sp);
    assert CharLen([0xC3]) == 0;
    assert first.units == [];
    RunAppend(EmptyTail, [a], [b], sp);
    assert [a] + [b] == [a, b];
    SplitCharacterMerges(sp, a, b);
    var second := Run(first.tail, [b], sp);
    assert second.units == [TextUnit("\U{E9}", (a.p + b.p) / 2.0, (a.pt + b.pt) / 2.0, b.t0 / 100.0, b.t1 / 100.0)];
    var lang := ResolveLang(langCode, detected);
    assert segs[1..] == [[b]];
    assert Paragraphs(EmptyTail, segs, sp, lang, speaker)[1] == Paragraph(speaker, Atoms(second.units), lang);
  }

  // ---------------------------------------------------------------------
  // The published stream over a whole transcription.
  // ---------------------------------------------------------------------

  /**
   One engine callback: how many segments the engine held, how many of them
   are new, and the language it detected at that point.
   */
  datatype Callback = Callback(total: nat, nNew: int, detected: string)

  /** The engine's reports are consistent with the final segment list. */
  predicate WellFormedCalls(segs: seq<Segment>, calls: seq<Callback>) {
    forall k :: 0 <= k < |calls| ==> calls[k].nNew <= calls[k].total <= |segs|
  }

  /** Number of paragraphs the callbacks publish. */
  function NewCount(calls: seq<Callback>): nat
    decreases |calls|
  {
    if |calls| == 0 then 0
    else NewCount(calls[..|calls| - 1]) + (var n := Last(calls).nNew; if n <= 0 then 0 else n)
  }

  /** The paragraphs one callback publishes, from the segments the engine held at that point. */
  function CallbackParagraphs(segs: seq<Segment>, c: Callback, langCode: Option<string>,
                              sp: SpecialTokens, speaker: string): seq<Paragraph>
    requires c.nNew <= c.total <= |segs|
  {
    HandleNewSegment(segs[..c.total], c.nNew, langCode, c.detected, sp, speaker)
  }

  /**
   The paragraphs the worker puts on its queue, callback after callback;
   the bridge to the caller delivers them in this order (the queue is FIFO).
   Each callback starts from an empty tail.
   */
  function Published(segs: seq<Segment>, calls: seq<Callback>, langCode: Option<string>,
                     sp: SpecialTokens, speaker: string): (r: seq<Paragraph>)
    requires WellFormedCalls(segs, calls)
    ensures |r| == NewCount(calls)
    ensures forall i :: 0 <= i < |r| ==> r[i].speaker == speaker
    decreases |calls|
  {
    if |calls| == 0 then []
    else
      Published(segs, calls[..|calls| - 1], langCode, sp, speaker)
      + CallbackParagraphs(segs, Last(calls), langCode, sp, speaker)
  }

  lemma WellFormedPrefix(segs: seq<Segment>, calls: seq<Callback>, m: nat)
    requires WellFormedCalls(segs, calls) && m <= |calls|
    ensures WellFormedCalls(segs, calls[..m])
  {
    forall k | 0 <= k < m ensures calls[..m][k].nNew <= calls[..m][k].total <= |segs| {
      assert calls[..m][k] == calls[k];
    }
  }

  /** What the earlier callbacks published is never taken back: it is a prefix of the whole stream. */
  lemma {:induction false} PublishedPrefix(segs: seq<Segment>, calls: seq<Callback>, m: nat, langCode: Option<string>,
                                           sp: SpecialTokens, speaker: string)
    requires WellFormedCalls(segs, calls) && m <= |calls|
    ensures WellFormedCalls(segs, calls[..m])
    ensures Published(segs, calls[..m], langCode, sp, speaker) <= Published(segs, calls, langCode, sp, speaker)
    decreases |calls|
  {
    WellFormedPrefix(segs, calls, m);
    if m < |calls| {
      var init := calls[..|calls| - 1];
      WellFormedPrefix(segs, calls, |calls| - 1);
      PublishedPrefix(segs, init, m, langCode, sp, speaker);
      assert init[..m] == calls[..m];
    } else {
      assert calls[..m] == calls;
    }
  }

  /** The prefix of the stream up to callback `k` is the prefix before it, then callback `k`'s paragraphs. */
  lemma PublishedStep(segs: seq<Segment>, calls: seq<Callback>, k: nat, langCode: Option<string>,
                      sp: SpecialTokens, speaker: string)
    requires WellFormedCalls(segs, calls) && k < |calls|
    ensures WellFormedCalls(segs, calls[..k]) && WellFormedCalls(segs, calls[..k + 1])
    ensures Published(segs, calls[..k + 1], langCode, sp, speaker)
            == Published(segs, calls[..k], langCode, sp, speaker) + CallbackParagraphs(segs, calls[k], langCode, sp, speaker)
  {
    WellFormedPrefix(segs, calls, k);
    WellFormedPrefix(segs, calls, k + 1);
    var pre := calls[..k + 1];
    assert pre[..|pre| - 1] == calls[..k];
    assert Last(pre) == calls[k];
  }

  /**
   Callback `k`'s paragraphs sit in the stream right after those of the
   callbacks before it, in order: position `j` of callback `k`'s own list
   is position `NewCount(calls[..k]) + j` of the stream.
   */
  lemma PublishedByCallback(segs: seq<Segment>, calls: seq<Callback>, k: nat, j: nat, langCode: Option<string>,
                            sp: SpecialTokens, speaker: string)
    requires WellFormedCalls(segs, calls) && k < |calls|
    requires j < |CallbackParagraphs(segs, calls[k], langCode, sp, speaker)|
    ensures NewCount(calls[..k]) + j < NewCount(calls[..k + 1]) <= NewCount(calls)
    ensures Published(segs, calls, langCode, sp, speaker)[NewCount(calls[..k]) + j]
            == CallbackParagraphs(segs, calls[k], langCode, sp, speaker)[j]
  {
    StreamAt(segs, calls, k, j, langCode, sp, speaker);
    NewCountStep(segs, calls, k, langCode, sp, speaker);
    NewCountPrefix(segs, calls, k + 1, langCode, sp, speaker);
  }

  /** Position `j` of callback `k`'s paragraphs is position `NewCount(calls[..k]) + j` of the stream. */
  lemma StreamAt(segs: seq<Segment>, calls: seq<Callback>, k: nat, j: nat, langCode: Option<string>,
                 sp: SpecialTokens, speaker: string)
    requires WellFormedCalls(segs, calls) && k < |calls|
    requires j < |CallbackParagraphs(segs, calls[k], langCode, sp, speaker)|
    ensures NewCount(calls[..k]) + j < |Published(segs, calls, langCode, sp, speaker)|
    ensures Published(segs, calls, langCode, sp, speaker)[NewCount(calls[..k]) + j]
            == CallbackParagraphs(segs, calls[k], langCode, sp, speaker)[j]
  {
    CallbackInStream(segs, calls, k, langCode, sp, speaker);
    var front := Published(segs, calls[..k], langCode, sp, speaker);
    var mine := CallbackParagraphs(segs, calls[k], langCode, sp, speaker);
    PrefixAt(front, mine, Published(segs, calls, langCode, sp, speaker), j);
  }

  /** The paragraphs of callback `k` follow those of the earlier callbacks in the stream. */
  lemma CallbackInStream(segs: seq<Segment>, calls: seq<Callback>, k: nat, langCode: Option<string>,
                         sp: SpecialTokens, speaker: string)
    requires WellFormedCalls(segs, calls) && k < |calls|
    ensures WellFormedCalls(segs, calls[..k])
    ensures Published(segs, calls[..k], langCode, sp, speaker) + CallbackParagraphs(segs, calls[k], langCode, sp, speaker)
            <= Published(segs, calls, langCode, sp, speaker)
  {
    PublishedStep(segs, calls, k, langCode, sp, speaker);
    PublishedPrefix(segs, calls, k + 1, langCode, sp, speaker);
  }

  /** A prefix of the callbacks publishes no more than all of them. */
  lemma NewCountPrefix(segs: seq<Segment>, calls: seq<Callback>, m: nat, langCode: Option<string>,
                       sp: SpecialTokens, speaker: string)
    requires WellFormedCalls(segs, calls) && m <= |calls|
    ensures NewCount(calls[..m]) <= NewCount(calls)
  {
    PublishedPrefix(segs, calls, m, langCode, sp, speaker);
  }

  /** In a sequence that starts with `a + b`, position `|a| + j` holds `b[j]`. */
  lemma PrefixAt<T>(a: seq<T>, b: seq<T>, c: seq<T>, j: nat)
    requires a + b <= c && j < |b|
    ensures |a| + j < |c| && c[|a| + j] == b[j]
  {
    assert c[|a| + j] == (a + b)[|a| + j];
  }

  /** Element `n + j` of `c` is element `j` of `b`, read at the position `i` it equals. */
  lemma ShiftedAt<T>(c: seq<T>, b: seq<T>, n: nat, j: nat, i: nat)
    requires n + j < |c| && j < |b| && c[n + j] == b[j] && i == n + j
    ensures i < |c| && c[i] == b[i - n]
  {
  }

  /** The stream grows by exactly the paragraphs of each callback. */
  lemma NewCountStep(segs: seq<Segment>, calls: seq<Callback>, k: nat, langCode: Option<string>,
                     sp: SpecialTokens, speaker: string)
    requires WellFormedCalls(segs, calls) && k < |calls|
    ensures NewCount(calls[..k + 1]) == NewCount(calls[..k]) + |CallbackParagraphs(segs, calls[k], langCode, sp, speaker)|
  {
    PublishedStep(segs, calls, k, langCode, sp, speaker);
  }

  /**
   The engine reports every segment once: each callback's new segments are
   the ones after those already reported.
   */
  predicate Consecutive(calls: seq<Callback>) {
    forall k {:trigger TotalBefore(calls, k)} :: 0 <= k < |calls| ==>
      calls[k].nNew >= 0 && calls[k].total == TotalBefore(calls, k) + calls[k].nNew
  }

  /** The number of segments reported before callback `k`. */
  function TotalBefore(calls: seq<Callback>, k: nat): nat
    requires k < |calls|
  {
    if k == 0 then 0 else calls[k - 1].total
  }

  lemma ConsecutivePrefix(calls: seq<Callback>, m: nat)
    requires Consecutive(calls) && m <= |calls|
    ensures Consecutive(calls[..m])
  {
    var pre := calls[..m];
    forall k | 0 <= k < |pre|
      ensures pre[k].nNew >= 0 && pre[k].total == TotalBefore(pre, k) + pre[k].nNew
    {
      assert pre[k] == calls[k];
      assert TotalBefore(pre, k) == TotalBefore(calls, k);
    }
  }

  /** When the engine reports every segment once, the callbacks' new counts add up to the segments reported. */
  lemma {:induction false} NewCountIsTotal(calls: seq<Callback>)
    requires Consecutive(calls)
    ensures NewCount(calls) == if |calls| == 0 then 0 else Last(calls).total
    decreases |calls|
  {
    if |calls| > 0 {
      var n := |calls| - 1;
      ConsecutivePrefix(calls, n);
      NewCountIsTotal(calls[..n]);
      assert calls[n].total == TotalBefore(calls, n) + calls[n].nNew;
      if n > 0 {
        assert Last(calls[..n]) == calls[n - 1];
      }
    }
  }

  /** Before callback `k` the stream holds one paragraph per segment reported so far. */
  lemma NewCountBefore(calls: seq<Callback>, k: nat)
    requires Consecutive(calls) && k < |calls|
    ensures NewCount(calls[..k]) == TotalBefore(calls, k)
  {
    ConsecutivePrefix(calls, k);
    NewCountIsTotal(calls[..k]);
    if k > 0 {
      assert Last(calls[..k]) == calls[k - 1];
    }
  }

  /** Paragraph `i - tb` of a callback is built from segment `i`, the callback's `(i - tb)`-th new one. */
  lemma CallbackParagraphAt(segs: seq<Segment>, c: Callback, tb: nat, i: nat, langCode: Option<string>,
                            sp: SpecialTokens, speaker: string)
    requires c.nNew <= c.total <= |segs| && tb == c.total - c.nNew && tb <= i < c.total
    ensures |CallbackParagraphs(segs, c, langCode, sp, speaker)| == c.nNew
    ensures CallbackParagraphs(segs, c, langCode, sp, speaker)[i - tb].children == SegmentAtoms(segs, tb, c.total, i, sp)
  {
    var news := segs[tb..c.total];
    assert NewSegments(segs[..c.total], c.nNew) == news;
    ParagraphAt(EmptyTail, news, i - tb, sp, ResolveLang(langCode, c.detected), speaker);
    assert news[i - tb] == segs[i];
  }

  /**
   The atoms segment `i` emits when a callback walks the segments `from`
   up to `to`: its tokens run from the tail the segments before it in that
   callback left.
   */
  function SegmentAtoms(segs: seq<Segment>, from: nat, to: nat, i: nat, sp: SpecialTokens): seq<Atom>
    requires from <= i < to <= |segs|
  {
    Atoms(Run(TailBefore(EmptyTail, segs[from..to], i - from, sp), segs[i], sp).units)
  }

  /** Paragraph `i` of the stream is built from segment `i`, within callback `k`. */
  lemma ParagraphFromSegment(segs: seq<Segment>, calls: seq<Callback>, k: nat, i: nat, langCode: Option<string>,
                             sp: SpecialTokens, speaker: string)
    requires WellFormedCalls(segs, calls) && Consecutive(calls) && k < |calls|
    requires TotalBefore(calls, k) <= i < calls[k].total
    ensures i < |Published(segs, calls, langCode, sp, speaker)|
    ensures Published(segs, calls, langCode, sp, speaker)[i].children
            == SegmentAtoms(segs, TotalBefore(calls, k), calls[k].total, i, sp)
  {
    StreamSlot(segs, calls, k, i, langCode, sp, speaker);
    SlotParagraph(segs, calls, k, i, langCode, sp, speaker);
  }

  /** Within callback `k`, its paragraph for segment `i` holds the atoms of segment `i`. */
  lemma SlotParagraph(segs: seq<Segment>, calls: seq<Callback>, k: nat, i: nat, langCode: Option<string>,
                      sp: SpecialTokens, speaker: string)
    requires WellFormedCalls(segs, calls) && Consecutive(calls) && k < |calls|
    requires TotalBefore(calls, k) <= i < calls[k].total
    ensures i - TotalBefore(calls, k) < |CallbackParagraphs(segs, calls[k], langCode, sp, speaker)|
    ensures CallbackParagraphs(segs, calls[k], langCode, sp, speaker)[i - TotalBefore(calls, k)].children
            == SegmentAtoms(segs, TotalBefore(calls, k), calls[k].total, i, sp)
  {
    CallbackParagraphAt(segs, calls[k], TotalBefore(calls, k), i, langCode, sp, speaker);
  }

  /** Position `i` of the stream is position `i - TotalBefore(calls, k)` of callback `k`'s paragraphs. */
  lemma StreamSlot(segs: seq<Segment>, calls: seq<Callback>, k: nat, i: nat, langCode: Option<string>,
                   sp: SpecialTokens, speaker: string)
    requires WellFormedCalls(segs, calls) && Consecutive(calls) && k < |calls|
    requires TotalBefore(calls, k) <= i < calls[k].total
    ensures i - TotalBefore(calls, k) < |CallbackParagraphs(segs, calls[k], langCode, sp, speaker)|
    ensures i < |Published(segs, calls, langCode, sp, speaker)|
    ensures Published(segs, calls, langCode, sp, speaker)[i]
            == CallbackParagraphs(segs, calls[k], langCode, sp, speaker)[i - TotalBefore(calls, k)]
  {
    var tb := TotalBefore(calls, k);
    NewCountBefore(calls, k);
    assert calls[k].nNew >= 0 && calls[k].total == tb + calls[k].nNew;
    SlotAfterCount(segs, calls, k, tb, i, langCode, sp, speaker);
  }

  /** Position `i` of the stream, past the `tb` paragraphs of the earlier callbacks, is callback `k`'s paragraph `i - tb`. */
  lemma SlotAfterCount(segs: seq<Segment>, calls: seq<Callback>, k: nat, tb: nat, i: nat, langCode: Option<string>,
                       sp: SpecialTokens, speaker: string)
    requires WellFormedCalls(segs, calls) && k < |calls| && tb == NewCount(calls[..k])
    requires tb <= i < tb + calls[k].nNew
    ensures i - tb < |CallbackParagraphs(segs, calls[k], langCode, sp, speaker)|
    ensures i < |Published(segs, calls, langCode, sp, speaker)|
    ensures Published(segs, calls, langCode, sp, speaker)[i]
            == CallbackParagraphs(segs, calls[k], langCode, sp, speaker)[i - tb]
  {
    StreamAt(segs, calls, k, i - tb, langCode, sp, speaker);
    ShiftedAt(Published(segs, calls, langCode, sp, speaker), CallbackParagraphs(segs, calls[k], langCode, sp, speaker),
              tb, i - tb, i);
  }

  /** Paragraph `i` of the stream exists and holds the atoms of segment `i`, as callback `k` walks it. */
  predicate BuiltFromSegment(segs: seq<Segment>, calls: seq<Callback>, k: nat, i: nat, langCode: Option<string>,
                             sp: SpecialTokens, speaker: string)
    requires WellFormedCalls(segs, calls) && k < |calls| && TotalBefore(calls, k) <= i < calls[k].total
  {
    && i < |Published(segs, calls, langCode, sp, speaker)|
    && Published(segs, calls, langCode, sp, speaker)[i].children == SegmentAtoms(segs, TotalBefore(calls, k), calls[k].total, i, sp)
  }

  /**
   When the engine reports every segment once, the stream has one paragraph
   per segment reported, and paragraph `i` is built from segment `i`.
   */
  lemma {:induction false} PublishedCoversSegments(segs: seq<Segment>, calls: seq<Callback>, langCode: Option<string>,
                                                   sp: SpecialTokens, speaker: string)
    requires WellFormedCalls(segs, calls) && Consecutive(calls)
    ensures |Published(segs, calls, langCode, sp, speaker)| == if |calls| == 0 then 0 else Last(calls).total
    ensures forall k, i :: 0 <= k < |calls| && TotalBefore(calls, k) <= i < calls[k].total ==>
              BuiltFromSegment(segs, calls, k, i, langCode, sp, speaker)
  {
    NewCountIsTotal(calls);
    forall k, i | 0 <= k < |calls| && TotalBefore(calls, k) <= i < calls[k].total
      ensures BuiltFromSegment(segs, calls, k, i, langCode, sp, speaker)
    {
      ParagraphFromSegment(segs, calls, k, i, langCode, sp, speaker);
    }
  }

  /**
   Every paragraph carries the language its own callback resolved: the
   fixed language code, or with an automatic one the language that
   callback's engine state reported.
   */
  lemma PublishedLanguages(segs: seq<Segment>, calls: seq<Callback>, langCode: Option<string>,
                           sp: SpecialTokens, speaker: string)
    requires WellFormedCalls(segs, calls)
    ensures forall k :: 0 <= k <= |calls| ==> NewCount(calls[..k]) <= NewCount(calls)
    ensures forall k, i :: 0 <= k < |calls| && NewCount(calls[..k]) <= i < NewCount(calls[..k + 1]) ==>
              Published(segs, calls, langCode, sp, speaker)[i].lang == ResolveLang(langCode, calls[k].detected)
    ensures !IsAutoLang(langCode) ==>
              forall i :: 0 <= i < NewCount(calls) ==>
                Published(segs, calls, langCode, sp, speaker)[i].lang == langCode.value
  {
    forall k | 0 <= k <= |calls| ensures NewCount(calls[..k]) <= NewCount(calls) {
      NewCountPrefix(segs, calls, k, langCode, sp, speaker);
    }
    forall k, i | 0 <= k < |calls| && NewCount(calls[..k]) <= i < NewCount(calls[..k + 1])
      ensures Published(segs, calls, langCode, sp, speaker)[i].lang == ResolveLang(langCode, calls[k].detected)
    {
      LanguageAt(segs, calls, k, i, langCode, sp, speaker);
    }
    if !IsAutoLang(langCode) {
      PublishedFixedLanguage(segs, calls, langCode, sp, speaker);
    }
  }

  /** Paragraph `i`, published by callback `k`, carries the language that callback resolved. */
  lemma LanguageAt(segs: seq<Segment>, calls: seq<Callback>, k: nat, i: nat, langCode: Option<string>,
                   sp: SpecialTokens, speaker: string)
    requires WellFormedCalls(segs, calls) && k < |calls|
    requires NewCount(calls[..k]) <= i < NewCount(calls[..k + 1])
    ensures i < |Published(segs, calls, langCode, sp, speaker)|
    ensures Published(segs, calls, langCode, sp, speaker)[i].lang == ResolveLang(langCode, calls[k].detected)
  {
    NewCountStep(segs, calls, k, langCode, sp, speaker);
    CallbackSlot(segs, calls, k, i, langCode, sp, speaker);
  }

  /** Stream position `i`, within callback `k`'s share, holds that callback's paragraph `i - NewCount(calls[..k])`. */
  lemma CallbackSlot(segs: seq<Segment>, calls: seq<Callback>, k: nat, i: nat, langCode: Option<string>,
                     sp: SpecialTokens, speaker: string)
    requires WellFormedCalls(segs, calls) && k < |calls|
    requires NewCount(calls[..k]) <= i < NewCount(calls[..k]) + |CallbackParagraphs(segs, calls[k], langCode, sp, speaker)|
    ensures i < |Published(segs, calls, langCode, sp, speaker)|
    ensures Published(segs, calls, langCode, sp, speaker)[i]
            == CallbackParagraphs(segs, calls[k], langCode, sp, speaker)[i - NewCount(calls[..k])]
  {
    var n := NewCount(calls[..k]);
    StreamAt(segs, calls, k, i - n, langCode, sp, speaker);
    ShiftedAt(Published(segs, calls, langCode, sp, speaker), CallbackParagraphs(segs, calls[k], langCode, sp, speaker),
              n, i - n, i);
  }

  /** With a fixed language code every paragraph carries it, whatever the engine detected. */
  lemma {:induction false} PublishedFixedLanguage(segs: seq<Segment>, calls: seq<Callback>, langCode: Option<string>,
                                                  sp: SpecialTokens, speaker: string)
    requires WellFormedCalls(segs, calls) && !IsAutoLang(langCode)
    ensures forall i :: 0 <= i < NewCount(calls) ==>
              Published(segs, calls, langCode, sp, speaker)[i].lang == langCode.value
    decreases |calls|
  {
    if |calls| > 0 {
      var init := calls[..|calls| - 1];
      WellFormedPrefix(segs, calls, |calls| - 1);
      PublishedFixedLanguage(segs, init, langCode, sp, speaker);
      var front := Published(segs, init, langCode, sp, speaker);
      var back := CallbackParagraphs(segs, Last(calls), langCode, sp, speaker);
      assert Published(segs, calls, langCode, sp, speaker) == front + back;
    }
  }
}
