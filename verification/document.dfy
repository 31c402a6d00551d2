/**
 The transcript document of `transcribee_proto/document.py`: atoms,
 paragraphs and documents, with the derived text, time bounds, atom
 iteration and the grouping of consecutive paragraphs by language.
 Only the fields are modelled; pydantic validation and serialisation are not.
 */
module DocumentModel {
  import opened Options
  import opened Seqs

  /** A timed, scored piece of text. */
  datatype Atom = Atom(text: string, start: real, end: real, conf: real)

  /** One paragraph; the constant `type` tag of the source is left out. */
  datatype Paragraph = Paragraph(speaker: string, children: seq<Atom>, lang: string)

  datatype Document = Document(paragraphs: seq<Paragraph>)

  /** One item of `iter_lang_blocks`: a language and the atoms of a run of paragraphs in it. */
  datatype LangBlock = LangBlock(lang: string, atoms: seq<Atom>)

  /** Concatenation of the texts of `atoms`, in order; empty exactly when every atom's text is. */
  function Texts(atoms: seq<Atom>): (r: string)
    ensures |r| == 0 <==> forall i :: 0 <= i < |atoms| ==> |atoms[i].text| == 0
    ensures |atoms| > 0 ==> atoms[0].text <= r
    decreases |atoms|
  {
    if |atoms| == 0 then [] else atoms[0].text + Texts(atoms[1..])
  }

  lemma {:induction false} TextsAppend(a: seq<Atom>, b: seq<Atom>)
    ensures Texts(a + b) == Texts(a) + Texts(b)
    decreases |a|
  {
    if |a| == 0 {
      assert a + b == b;
    } else {
      assert (a + b)[1..] == a[1..] + b;
      TextsAppend(a[1..], b);
    }
  }

  /** `Paragraph.text()`: the children's texts joined, empty exactly when every child's text is. */
  function ParagraphText(p: Paragraph): (r: string)
    ensures |r| == 0 <==> forall i :: 0 <= i < |p.children| ==> |p.children[i].text| == 0
    ensures |p.children| > 0 ==> p.children[0].text <= r
  {
    Texts(p.children)
  }

  /** `Paragraph.start()`: the first child's start, `None` without children. */
  function ParagraphStart(p: Paragraph): Option<real> {
    if |p.children| > 0 then Some(p.children[0].start) else None
  }

  /** `Paragraph.end()`: the last child's end, `None` without children. */
  function ParagraphEnd(p: Paragraph): Option<real> {
    if |p.children| > 0 then Some(Last(p.children).end) else None
  }

  /**
   A paragraph whose children are those of `p` followed by those of `q`:
   its text is `p`'s then `q`'s, it starts where `p` starts unless `p` has
   no child, and it ends where `q` ends unless `q` has no child.
   */
  lemma ChildrenConcat(p: Paragraph, q: Paragraph, speaker: string, lang: string)
    ensures var m := Paragraph(speaker, p.children + q.children, lang);
            && ParagraphText(m) == ParagraphText(p) + ParagraphText(q)
            && ParagraphStart(m) == (if |p.children| > 0 then ParagraphStart(p) else ParagraphStart(q))
            && ParagraphEnd(m) == (if |q.children| > 0 then ParagraphEnd(q) else ParagraphEnd(p))
  {
    TextsAppend(p.children, q.children);
    if |p.children| == 0 {
      assert p.children + q.children == q.children;
    }
  }

  /** The children of `ps`, paragraph after paragraph. */
  function AllChildren(ps: seq<Paragraph>): seq<Atom>
    decreases |ps|
  {
    if |ps| == 0 then [] else ps[0].children + AllChildren(ps[1..])
  }

  lemma {:induction false} AllChildrenAppend(a: seq<Paragraph>, b: seq<Paragraph>)
    ensures AllChildren(a + b) == AllChildren(a) + AllChildren(b)
    decreases |a|
  {
    if |a| == 0 {
      assert a + b == b;
    } else {
      assert (a + b)[1..] == a[1..] + b;
      AllChildrenAppend(a[1..], b);
    }
  }

  /** The children of a paragraph followed by others: its own, then theirs. */
  lemma AllChildrenCons(p: Paragraph, ps: seq<Paragraph>)
    ensures AllChildren([p] + ps) == p.children + AllChildren(ps)
  {
    assert ([p] + ps)[1..] == ps;
  }

  /**
   `Document.iter_atoms()`: the paragraphs' children in order, beginning
   with the first paragraph's; nothing exactly when no paragraph has a child.
   */
  function IterAtoms(d: Document): (r: seq<Atom>)
    ensures |r| == 0 <==> forall i :: 0 <= i < |d.paragraphs| ==> |d.paragraphs[i].children| == 0
    ensures |d.paragraphs| > 0 ==> d.paragraphs[0].children <= r
  {
    AllChildrenEmpty(d.paragraphs);
    AllChildren(d.paragraphs)
  }

  /** Concatenation of the paragraph texts of `ps`, in order. */
  function ParagraphsText(ps: seq<Paragraph>): string
    decreases |ps|
  {
    if |ps| == 0 then [] else ParagraphText(ps[0]) + ParagraphsText(ps[1..])
  }

  /** `Document.text()`: the paragraph texts joined, which are the texts of `iter_atoms()` joined. */
  function DocumentText(d: Document): (r: string)
    ensures r == Texts(IterAtoms(d))
  {
    ParagraphsTextIsAtomTexts(d.paragraphs);
    ParagraphsText(d.paragraphs)
  }

  /** The paragraph texts, joined, are the atom texts, joined. */
  lemma {:induction false} ParagraphsTextIsAtomTexts(ps: seq<Paragraph>)
    ensures ParagraphsText(ps) == Texts(AllChildren(ps))
    decreases |ps|
  {
    if |ps| > 0 {
      ParagraphsTextIsAtomTexts(ps[1..]);
      TextsAppend(ps[0].children, AllChildren(ps[1..]));
    }
  }

  lemma {:induction false} AllChildrenEmpty(ps: seq<Paragraph>)
    ensures |AllChildren(ps)| == 0 <==> forall i :: 0 <= i < |ps| ==> |ps[i].children| == 0
    decreases |ps|
  {
    if |ps| > 0 {
      AllChildrenEmpty(ps[1..]);
      assert forall i :: 1 <= i < |ps| ==> ps[i] == ps[1..][i - 1];
    }
  }

  /**
   `Document.is_empty()`: true exactly when no paragraph has a child, that is
   when `iter_atoms()` yields nothing. A document of many childless
   paragraphs is empty.
   */
  method IsEmpty(d: Document) returns (empty: bool)
    ensures empty <==> forall i :: 0 <= i < |d.paragraphs| ==> |d.paragraphs[i].children| == 0
    ensures empty <==> |IterAtoms(d)| == 0
  {
    AllChildrenEmpty(d.paragraphs);
    for i := 0 to |d.paragraphs|
      invariant forall k :: 0 <= k < i ==> |d.paragraphs[k].children| == 0
    {
      if |d.paragraphs[i].children| > 0 {
        return false;
      }
    }
    return true;
  }

  /**
   `Document.start()`: the start of the first paragraph only. A known start
   is the start of the first atom of `iter_atoms()`; the start is unknown
   when there is no paragraph or the first one has no child, even if later
   paragraphs have atoms.
   */
  function DocumentStart(d: Document): (r: Option<real>)
    ensures r.None? <==> |d.paragraphs| == 0 || |d.paragraphs[0].children| == 0
    ensures r.Some? ==> |IterAtoms(d)| > 0 && r.value == IterAtoms(d)[0].start
  {
    if |d.paragraphs| > 0 then ParagraphStart(d.paragraphs[0]) else None
  }

  /**
   `Document.end()`: the end of the last paragraph only. A known end is the
   end of the last atom of `iter_atoms()`; the end is unknown when there is
   no paragraph or the last one has no child.
   */
  function DocumentEnd(d: Document): (r: Option<real>)
    ensures r.None? <==> |d.paragraphs| == 0 || |Last(d.paragraphs).children| == 0
    ensures r.Some? ==> |IterAtoms(d)| > 0 && r.value == Last(IterAtoms(d)).end
  {
    if |d.paragraphs| > 0 then
      LastParagraphEndsAtoms(d.paragraphs);
      ParagraphEnd(Last(d.paragraphs))
    else None
  }

  /** The atoms of `ps` end with those of its last paragraph. */
  lemma LastParagraphEndsAtoms(ps: seq<Paragraph>)
    requires |ps| > 0
    ensures AllChildren(ps) == AllChildren(ps[..|ps| - 1]) + Last(ps).children
  {
    var n := |ps| - 1;
    assert ps == ps[..n] + [ps[n]];
    AllChildrenAppend(ps[..n], [ps[n]]);
    assert AllChildren([ps[n]]) == ps[n].children;
  }

  /** A document whose first paragraph is childless has no start, whatever follows it. */
  lemma StartUnknownDespiteAtoms(speaker: string, lang: string, a: Atom)
    ensures var d := Document([Paragraph(speaker, [], lang), Paragraph(speaker, [a], lang)]);
            DocumentStart(d) == None && IterAtoms(d) == [a]
  {
    var d := Document([Paragraph(speaker, [], lang), Paragraph(speaker, [a], lang)]);
    assert d.paragraphs[1..] == [Paragraph(speaker, [a], lang)];
    assert AllChildren(d.paragraphs[1..]) == [a] + AllChildren([]);
  }

  /*
   `iter_lang_blocks` as written walks the paragraphs keeping the open block's
   language and atom list, and yields a block whenever the language changes.
   The source binds the open list to the own `children` of the paragraph that
   opens each block and extends it with `+=`, so iterating mutates the first
   paragraph of every block that spans several paragraphs, and later calls
   see the duplicated atoms; this functional model returns fresh atom
   sequences and leaves the document unchanged.
   */

  /** The blocks yielded from the open block `open` onwards over the remaining paragraphs `ps`. */
  function LangBlocksFrom(open: LangBlock, ps: seq<Paragraph>): (r: seq<LangBlock>)
    ensures |r| > 0 && r[0].lang == open.lang && open.atoms <= r[0].atoms
    ensures |r| <= 1 + |ps|
    decreases |ps|
  {
    if |ps| == 0 then [open]
    else if ps[0].lang != open.lang then [open] + LangBlocksFrom(LangBlock(ps[0].lang, ps[0].children), ps[1..])
    else LangBlocksFrom(LangBlock(open.lang, open.atoms + ps[0].children), ps[1..])
  }

  /**
   `Document.iter_lang_blocks()`, as the sequence of the blocks it yields:
   there are blocks exactly when there are paragraphs, never more blocks
   than paragraphs, and the first block is in the first paragraph's language and
   begins with its children.
   */
  function IterLangBlocks(d: Document): (r: seq<LangBlock>)
    ensures |r| == 0 <==> |d.paragraphs| == 0
    ensures |r| <= |d.paragraphs|
    ensures |d.paragraphs| > 0 ==>
              |r| > 0 && r[0].lang == d.paragraphs[0].lang && d.paragraphs[0].children <= r[0].atoms
  {
    var ps := d.paragraphs;
    if |ps| == 0 then [] else LangBlocksFrom(LangBlock(ps[0].lang, ps[0].children), ps[1..])
  }

  /** Neighbouring paragraphs in one language block. */
  function SameLang(a: Paragraph, b: Paragraph): bool {
    a.lang == b.lang
  }

  /** The block of one run of paragraphs: the run's language and all its atoms. */
  function BlocksOfRuns(runs: seq<seq<Paragraph>>): (r: seq<LangBlock>)
    requires forall k :: 0 <= k < |runs| ==> |runs[k]| > 0
    ensures |r| == |runs|
    ensures forall k :: 0 <= k < |runs| ==>
              r[k] == LangBlock(runs[k][0].lang, AllChildren(runs[k]))
    decreases |runs|
  {
    if |runs| == 0 then []
    else [LangBlock(runs[0][0].lang, AllChildren(runs[0]))] + BlocksOfRuns(runs[1..])
  }

  /**
   The generator's loop from an open block: the open block, extended by the
   first run when that run is in its language, then one block per run.
   */
  lemma {:induction false} LangBlocksFromRuns(open: LangBlock, ps: seq<Paragraph>)
    ensures var runs := Split(ps, SameLang);
            LangBlocksFrom(open, ps) ==
              if |ps| > 0 && ps[0].lang == open.lang
              then [LangBlock(open.lang, open.atoms + AllChildren(runs[0]))] + BlocksOfRuns(runs[1..])
              else [open] + BlocksOfRuns(runs)
    decreases |ps|
  {
    if |ps| > 0 {
      var p := ps[0];
      if p.lang != open.lang {
        LangBlocksFromRuns(LangBlock(p.lang, p.children), ps[1..]);
        RunsAfterNewLang(p, ps);
      } else {
        LangBlocksFromRuns(LangBlock(open.lang, open.atoms + p.children), ps[1..]);
        RunsAfterSameLang(open, ps);
      }
    }
  }

  /** With a paragraph in a new language in front, the runs after it are the runs of the whole, the first one opened by it. */
  lemma RunsAfterNewLang(p: Paragraph, ps: seq<Paragraph>)
    requires |ps| > 0 && p == ps[0]
    ensures var rest := Split(ps[1..], SameLang);
            (if |ps[1..]| > 0 && ps[1..][0].lang == p.lang
             then [LangBlock(p.lang, p.children + AllChildren(rest[0]))] + BlocksOfRuns(rest[1..])
             else [LangBlock(p.lang, p.children)] + BlocksOfRuns(rest))
            == BlocksOfRuns(Split(ps, SameLang))
  {
    var rest := Split(ps[1..], SameLang);
    var runs := Split(ps, SameLang);
    if |rest| > 0 && SameLang(p, ps[1]) {
      assert runs == [[p] + rest[0]] + rest[1..];
      AllChildrenCons(p, rest[0]);
    } else {
      assert runs == [[p]] + rest;
      assert AllChildren([p]) == p.children;
    }
  }

  /** A paragraph in the open block's language extends it, together with the rest of its run. */
  lemma RunsAfterSameLang(open: LangBlock, ps: seq<Paragraph>)
    requires |ps| > 0 && ps[0].lang == open.lang
    ensures var p := ps[0];
            var rest := Split(ps[1..], SameLang);
            var runs := Split(ps, SameLang);
            (if |ps[1..]| > 0 && ps[1..][0].lang == open.lang
             then [LangBlock(open.lang, open.atoms + p.children + AllChildren(rest[0]))] + BlocksOfRuns(rest[1..])
             else [LangBlock(open.lang, open.atoms + p.children)] + BlocksOfRuns(rest))
            == [LangBlock(open.lang, open.atoms + AllChildren(runs[0]))] + BlocksOfRuns(runs[1..])
  {
    var p := ps[0];
    var rest := Split(ps[1..], SameLang);
    var runs := Split(ps, SameLang);
    if |rest| > 0 && SameLang(p, ps[1]) {
      assert runs == [[p] + rest[0]] + rest[1..];
      assert runs[1..] == rest[1..];
      AllChildrenCons(p, rest[0]);
      AppendAssoc(open.atoms, p.children, AllChildren(rest[0]));
    } else {
      assert runs == [[p]] + rest;
      assert AllChildren([p]) == p.children;
    }
  }

  /**
   The blocks `iter_lang_blocks` yields are exactly the maximal runs of
   consecutive paragraphs sharing a language, each with its run's atoms.
   */
  lemma IterLangBlocksAreRuns(d: Document)
    ensures IterLangBlocks(d) == BlocksOfRuns(Split(d.paragraphs, SameLang))
  {
    var ps := d.paragraphs;
    if |ps| > 0 {
      LangBlocksFromRuns(LangBlock(ps[0].lang, ps[0].children), ps[1..]);
      RunsAfterNewLang(ps[0], ps);
    }
  }

  /** The atoms of `blocks`, block after block. */
  function BlockAtoms(blocks: seq<LangBlock>): seq<Atom>
    decreases |blocks|
  {
    if |blocks| == 0 then [] else blocks[0].atoms + BlockAtoms(blocks[1..])
  }

  lemma {:induction false} BlockAtomsOfRuns(runs: seq<seq<Paragraph>>)
    requires forall k :: 0 <= k < |runs| ==> |runs[k]| > 0
    ensures BlockAtoms(BlocksOfRuns(runs)) == AllChildren(Flatten(runs))
    decreases |runs|
  {
    if |runs| > 0 {
      BlockAtomsOfRuns(runs[1..]);
      AllChildrenAppend(runs[0], Flatten(runs[1..]));
      assert BlocksOfRuns(runs)[1..] == BlocksOfRuns(runs[1..]);
    }
  }

  /** In a run whose neighbours share a language, every paragraph has the first one's language. */
  lemma {:induction false} ChainedLangIsUniform(run: seq<Paragraph>)
    requires |run| > 0
    requires forall j :: 0 < j < |run| ==> SameLang(run[j - 1], run[j])
    ensures forall j :: 0 <= j < |run| ==> run[j].lang == run[0].lang
    decreases |run|
  {
    if |run| > 1 {
      var init := run[..|run| - 1];
      ChainedLangIsUniform(init);
      assert forall j :: 0 <= j < |init| ==> init[j] == run[j];
      assert SameLang(run[|run| - 2], run[|run| - 1]);
    }
  }

  lemma {:induction false} UniformLangHasNoBreak(ps: seq<Paragraph>)
    requires forall i :: 0 <= i < |ps| ==> ps[i].lang == ps[0].lang
    ensures Breaks(ps, SameLang) == 0
    decreases |ps|
  {
    if |ps| >= 2 {
      UniformLangHasNoBreak(ps[1..]);
    }
  }

  /**
   What `iter_lang_blocks` promises: nothing for a document without
   paragraphs and at least one block otherwise, never more blocks than
   paragraphs and exactly one when all paragraphs share a language; the
   blocks' atoms, joined, are `iter_atoms()`; neighbouring blocks differ in
   language; and each block is a run of consecutive paragraphs, all in the
   block's language, whose atoms are the block's atoms.
   */
  lemma LangBlocksProperties(d: Document)
    ensures var blocks := IterLangBlocks(d);
            && (|blocks| == 0 <==> |d.paragraphs| == 0)
            && |blocks| <= |d.paragraphs|
            && BlockAtoms(blocks) == IterAtoms(d)
            && (forall k :: 0 < k < |blocks| ==> blocks[k - 1].lang != blocks[k].lang)
    ensures |d.paragraphs| > 0 && (forall i :: 0 <= i < |d.paragraphs| ==> d.paragraphs[i].lang == d.paragraphs[0].lang)
            ==> |IterLangBlocks(d)| == 1
    ensures var runs := Split(d.paragraphs, SameLang);
            && Flatten(runs) == d.paragraphs
            && |runs| == |IterLangBlocks(d)|
            && forall k, j :: 0 <= k < |runs| && 0 <= j < |runs[k]| ==>
                 runs[k][j].lang == IterLangBlocks(d)[k].lang
                 && IterLangBlocks(d)[k].atoms == AllChildren(runs[k])
  {
    var ps := d.paragraphs;
    var runs := Split(ps, SameLang);
    var blocks := IterLangBlocks(d);
    IterLangBlocksAreRuns(d);
    SplitFlatten(ps, SameLang);
    BlockAtomsOfRuns(runs);
    SplitJoinsWithin(ps, SameLang);
    SplitBreaksBetween(ps, SameLang);
    SplitCount(ps, SameLang);
    forall k | 0 <= k < |runs|
      ensures forall j :: 0 <= j < |runs[k]| ==> runs[k][j].lang == blocks[k].lang
    {
      ChainedLangIsUniform(runs[k]);
    }
    forall k | 0 < k < |blocks|
      ensures blocks[k - 1].lang != blocks[k].lang
    {
      assert Last(runs[k - 1]).lang == blocks[k - 1].lang;
    }
    if |ps| > 0 && forall i :: 0 <= i < |ps| ==> ps[i].lang == ps[0].lang {
      UniformLangHasNoBreak(ps);
    }
  }
}
