# transcribee worker transcription core, in Dafny

This project models the part of the transcribee worker that turns the
whisper engine's token stream into document paragraphs. It also models the
document classes those paragraphs live in. Everything is proved with
Dafny 4.11.

- **Token recombination** (`handle_new_segment`). The engine reports
  finished segments as sequences of tokens. Each token carries an id, raw
  bytes, a confidence, and start and end times in units of 10 ms. Special
  ids, and ids above the last special id, are skipped. The remaining
  tokens' bytes are appended to a tail until the tail decodes as strict
  UTF-8. Each successful decode becomes one atom: the decoded text, the
  mean confidence of the tokens it took, and times converted to seconds.
  Each segment becomes one paragraph tagged with the configured language.
  When that code is `None`, `""` or `"auto"`, the tag is the language the
  engine detected.
- **Split-word recombination** (`recombine_split_words`). A paragraph
  whose text does not start with whitespace is merged into the paragraph
  held back before it.
- **Leading-whitespace removal**
  (`remove_leading_whitespace_from_paragraph`). Strips the first atom's
  text of every paragraph. It fails with an index error on a paragraph
  without atoms.
- **The cleaned pipeline** (`transcribe_clean`). The composition of the
  two stream stages above.
- **The document model** (`Atom`, `Paragraph`, `Document`). Paragraph and
  document text, start and end, `is_empty`, `iter_atoms` and
  `iter_lang_blocks`.

Modules, one per concern:

| module | file | contents |
|---|---|---|
| `Options`, `Seqs` | `seqs.dfy` | option type; `Flatten`, `MapSeq`, and `Split` into maximal runs of a "joins" relation, with its partition lemmas |
| `Utf8` | `utf8.dfy` | the well-formed byte grammar of section 4 of RFC 3629, as Python's strict decoder accepts it, with a decoder and an encoder proved inverse to each other |
| `PyText` | `pytext.dfy` | Python's `str.isspace` character set and `str.strip()` |
| `DocumentModel` | `document.dfy` | `Atom`, `Paragraph`, `Document` and their methods |
| `Recombiner` | `recombiner.dfy` | the token loop of `handle_new_segment` as a step function over an explicit tail state, and its reference definition: decodable groups of the kept tokens |
| `SegmentBuilder` | `segments.dfy` | one engine callback: new segments, language resolution, one paragraph per segment, and the stream published over a whole transcription |
| `PostProcess` | `postprocess.dfy` | split-word merging, leading-whitespace removal and their composition |

Each stage has a reference definition and a lemma that connects the two:

- The incremental recombiner equals "one unit per minimal decodable group
  of the kept tokens". When the kept bytes are well-formed, the units'
  texts joined are exactly the decoded bytes.
- The split-word merger equals "one paragraph per maximal run of
  paragraphs that continue a word".
- `iter_lang_blocks` equals "one block per maximal run of paragraphs in
  one language".

Three as-written behaviours the model keeps:

- **The tail is not reset per segment.** It is initialised once per
  callback, so bytes left undecoded at the end of one segment are prepended
  to the next segment's tokens. The model carries the tail across segments
  (`SegmentBuilder.Paragraphs`). `SegmentBuilder.SplitAcrossSegments` shows
  a two-byte character split over two segments. It lands in the second
  paragraph, and the first paragraph is left without atoms.
- **The recorded start of a tail never leaves 0.** It is only overwritten
  when it is already non-zero (line 103 of `whisper_transcribe.py`). So
  every atom starts at its own last token's start, not at the first
  token's start. `Recombiner.UnitsCarryTokenTimes` and
  `Recombiner.RunMatchesGroups` state this.
- **An empty paragraph makes the trimmer fail.** It raises an `IndexError`
  on a paragraph without atoms. This is reachable through the cleaned
  pipeline (`PostProcess.EmptyParagraphRaises`).

Python floats are modelled as Dafny `real`s (exact arithmetic). The
engine's segments, the special ids and the detected language are
parameters.

## Model

| member | source | states |
|---|---|---|
| `Recombiner.Step` | worker/transcribee_worker/whisper_transcribe.py:76-111 | a token emits a unit exactly when it is not skipped and tail plus token bytes are valid UTF-8; the unit's text is their decoding and its end is the token's end in seconds, and the tail is reset; a non-emitting kept token appends its bytes and confidences to the tail and bumps its count; a skipped token changes nothing |
| `Recombiner.KeptMembers` | worker/transcribee_worker/whisper_transcribe.py:77-78 | the tokens that reach decoding are exactly the input tokens whose id is neither special nor above the last special id |
| `Recombiner.RunKeptOnly` | worker/transcribee_worker/whisper_transcribe.py:76-78 | filtering out the skipped tokens first does not change the loop's units or tail |
| `Recombiner.RunAppend` | worker/transcribee_worker/whisper_transcribe.py:69-111 | running the loop over `a + b` is running it over `a`, then over `b` from the tail `a` left |
| `Recombiner.StepAverages` | worker/transcribee_worker/whisper_transcribe.py:88-93 | a token that completes the pending tokens to valid UTF-8 emits the unit of the whole group, whose confidence is the mean over the group, and resets the tail |
| `Recombiner.StepAbsorbs` | worker/transcribee_worker/whisper_transcribe.py:94-105 | a token that does not complete valid UTF-8 joins the pending group: the tail becomes the summary of the group extended by it, and nothing is emitted |
| `Recombiner.GroupsPartition` | worker/transcribee_worker/whisper_transcribe.py:86-105 | the decodable groups, read in order, followed by the undecodable leftover, are exactly the kept tokens |
| `Recombiner.RunMatchesGroups` | worker/transcribee_worker/whisper_transcribe.py:59-111 | from the empty tail, the loop emits one unit per minimal decodable group of the kept tokens and leaves the summary of the undecodable leftover as its tail, whose recorded start is still 0 |
| `Recombiner.UnitsCarryTokenTimes` | worker/transcribee_worker/whisper_transcribe.py:83-120 | every atom's start and end are the start and end (in seconds) of one kept input token |
| `Recombiner.GroupsRoundTrip` | worker/transcribee_worker/whisper_transcribe.py:86-89 | when the kept bytes are well-formed UTF-8, nothing is left over and the group texts joined are the decoding of all bytes |
| `Recombiner.RecombineDecodes` | worker/transcribee_worker/whisper_transcribe.py:86-111 | when the kept bytes are well-formed, the units' texts joined are their decoding and the tail ends empty |
| `Recombiner.RecombineEncoded` | worker/transcribee_worker/whisper_transcribe.py:86-111 | when the kept tokens' bytes are the UTF-8 encoding of a text, the units' texts joined give that text back, however the bytes are split among tokens |
| `Recombiner.SplitCharacterMerges` | worker/transcribee_worker/whisper_transcribe.py:88-123 | a two-byte character split over two tokens becomes one unit with that character, the mean of the two confidences and the second token's times |
| `Utf8.DecodeEncode` | worker/transcribee_worker/whisper_transcribe.py:89 | every string encodes to well-formed UTF-8 that decodes back to the same string |
| `Utf8.EncodeDecode` | worker/transcribee_worker/whisper_transcribe.py:89 | every well-formed byte string is the encoding of its decoding |
| `Utf8.DecodeAppend` | worker/transcribee_worker/whisper_transcribe.py:89 | the concatenation of two well-formed byte strings is well-formed and decodes to the concatenation of their decodings |
| `Utf8.ValidSuffix` | worker/transcribee_worker/whisper_transcribe.py:89 | cutting a well-formed prefix off a well-formed byte string leaves a well-formed rest |
| `Utf8.Decode` | worker/transcribee_worker/whisper_transcribe.py:89 | decoding well-formed bytes yields at most one character per byte, and no characters exactly when there are no bytes |
| `PyText.Strip` | worker/transcribee_worker/whisper_transcribe.py:230 | the result is the input minus its leading and trailing whitespace: a contiguous slice, with only whitespace cut at both ends, empty exactly when the input is all whitespace, and otherwise neither starting nor ending with whitespace |
| `PyText.StripIdempotent` | worker/transcribee_worker/whisper_transcribe.py:230 | stripping twice is stripping once |
| `SegmentBuilder.ResolveLang` | worker/transcribee_worker/whisper_transcribe.py:65-67 | `None`, `""` and `"auto"` select the detected language; any other code is used unchanged; so a placeholder code never reaches a paragraph unless the engine reports it |
| `SegmentBuilder.NewSegments` | worker/transcribee_worker/whisper_transcribe.py:57-69 | the segments a callback handles are the last `n_new` of those the engine holds, and none when `n_new` is not positive |
| `SegmentBuilder.Atoms` | worker/transcribee_worker/whisper_transcribe.py:113-123 | each unit becomes one atom with the same text, confidence, start and end, in order |
| `SegmentBuilder.Paragraphs` | worker/transcribee_worker/whisper_transcribe.py:69-132 | the segment loop yields one paragraph per segment, each with the resolved language and the given speaker |
| `SegmentBuilder.HandleNewSegment` | worker/transcribee_worker/whisper_transcribe.py:51-132 | a callback publishes one paragraph per new segment, each tagged with the resolved language and the given speaker |
| `SegmentBuilder.ParagraphsAreOneRun` | worker/transcribee_worker/whisper_transcribe.py:59-132 | the atoms of a callback's paragraphs, joined, are the units of one token loop over all its segments' tokens, because the tail carries over segment boundaries |
| `SegmentBuilder.CallbackAtomsAreGroups` | worker/transcribee_worker/whisper_transcribe.py:57-132 | a callback's atoms are one per minimal decodable group of the kept tokens of its new segments |
| `SegmentBuilder.ParagraphAt` | worker/transcribee_worker/whisper_transcribe.py:69-132 | paragraph `i` holds the units of segment `i`'s tokens, run from the tail the earlier segments left |
| `SegmentBuilder.ParagraphStandsAlone` | worker/transcribee_worker/whisper_transcribe.py:86-87 | when the earlier segments' kept bytes are well-formed, a segment's paragraph is built from its own tokens alone, and its text is their decoding when that is well-formed |
| `SegmentBuilder.SplitAcrossSegments` | worker/transcribee_worker/whisper_transcribe.py:86-87 | a character split over two segments is not dropped: the first paragraph has no atom and the second holds the whole character with the averaged confidence |
| `SegmentBuilder.Published` | worker/transcribee_worker/whisper_transcribe.py:131 | the published stream has as many paragraphs as the callbacks' positive new-segment counts add up to, all with the given speaker |
| `SegmentBuilder.PublishedPrefix` | worker/transcribee_worker/whisper_transcribe.py:131 | the stream published by the first callbacks is a prefix of the whole stream: nothing published is taken back |
| `SegmentBuilder.PublishedByCallback` | worker/transcribee_worker/whisper_transcribe.py:125-131 | the `j`-th paragraph a callback builds is published right after the paragraphs of the earlier callbacks, at their count plus `j` |
| `SegmentBuilder.NewCountIsTotal` | worker/transcribee_worker/whisper_transcribe.py:57 | when every callback reports exactly the segments added since the previous one, the new-segment counts add up to the last callback's segment total |
| `SegmentBuilder.ParagraphFromSegment` | worker/transcribee_worker/whisper_transcribe.py:57-132 | with consecutive callbacks, the stream's paragraph `i` holds the atoms of segment `i`, run from the tail its callback's earlier segments left |
| `SegmentBuilder.PublishedCoversSegments` | worker/transcribee_worker/whisper_transcribe.py:57-132 | when every callback reports exactly the segments added since the previous one, the stream has one paragraph per segment the engine finished, and paragraph `i` holds the atoms of segment `i`, run from the tail the earlier segments of its own callback left |
| `SegmentBuilder.PublishedLanguages` | worker/transcribee_worker/whisper_transcribe.py:65-131 | each callback's block of the stream carries the language that callback resolved: the code when it is concrete, otherwise the language that callback detected; with a concrete code every published paragraph carries it |
| `SegmentBuilder.LanguageAt` | worker/transcribee_worker/whisper_transcribe.py:65-131 | a paragraph in a callback's block of the stream carries the language that callback resolved |
| `DocumentModel.Texts` | proto/transcribee_proto/document.py:20-21 | joined atom texts are empty exactly when every atom's text is, and begin with the first atom's text |
| `DocumentModel.ParagraphText` | proto/transcribee_proto/document.py:20-21 | `Paragraph.text()` is empty exactly when every child's text is, and begins with the first child's text |
| `DocumentModel.ChildrenConcat` | proto/transcribee_proto/document.py:20-29 | a paragraph whose children are those of two paragraphs has their texts joined, the first one's start unless it has no children, and the second one's end unless it has no children |
| `DocumentModel.IterAtoms` | proto/transcribee_proto/document.py:79-80 | `iter_atoms()` is empty exactly when every paragraph is, and begins with the first paragraph's children |
| `DocumentModel.DocumentText` | proto/transcribee_proto/document.py:68-69 | `Document.text()` is the joined texts of the atoms `iter_atoms()` yields |
| `DocumentModel.ParagraphsTextIsAtomTexts` | proto/transcribee_proto/document.py:68-69 | the joined paragraph texts are the joined texts of all atoms in order |
| `DocumentModel.AllChildrenAppend` | proto/transcribee_proto/document.py:79-80 | `iter_atoms()` of concatenated paragraph lists is the concatenation of their atoms |
| `DocumentModel.AllChildrenEmpty` | proto/transcribee_proto/document.py:54-66 | there are no atoms exactly when every paragraph has no children |
| `DocumentModel.IsEmpty` | proto/transcribee_proto/document.py:54-66 | `is_empty()` returns true exactly when no paragraph has a child, that is, when `iter_atoms()` is empty |
| `DocumentModel.DocumentStart` | proto/transcribee_proto/document.py:71-73 | the start is unknown exactly when there is no paragraph or the first has no child; otherwise it is the first atom's start |
| `DocumentModel.DocumentEnd` | proto/transcribee_proto/document.py:75-77 | the end is unknown exactly when there is no paragraph or the last has no child; otherwise it is the last atom's end |
| `DocumentModel.StartUnknownDespiteAtoms` | proto/transcribee_proto/document.py:71-73 | a document whose first paragraph is empty has no start even though it has atoms |
| `DocumentModel.LangBlocksFrom` | proto/transcribee_proto/document.py:38-52 | the generator from an open block yields at least one block, the first in the open block's language and beginning with its atoms, and at most one more per remaining paragraph |
| `DocumentModel.IterLangBlocks` | proto/transcribee_proto/document.py:35-52 | there are blocks exactly when there are paragraphs and never more blocks than paragraphs; the first block has the first paragraph's language and begins with its children |
| `DocumentModel.LangBlocksFromRuns` | proto/transcribee_proto/document.py:38-50 | the generator's loop from an open block equals the open block, extended by the first run when that run's language matches, followed by one block per further run |
| `DocumentModel.IterLangBlocksAreRuns` | proto/transcribee_proto/document.py:35-52 | `iter_lang_blocks()` yields one block per maximal run of consecutive paragraphs in one language |
| `DocumentModel.BlockAtomsOfRuns` | proto/transcribee_proto/document.py:41-49 | the atoms of the blocks, joined, are the atoms of the paragraphs of the runs, in order |
| `DocumentModel.LangBlocksProperties` | proto/transcribee_proto/document.py:35-52 | blocks exist exactly when paragraphs do, are no more numerous, hold every atom in order, and neighbouring blocks differ in language; a one-language document is one block; each block's language is that of every paragraph of its run |
| `PostProcess.StartsWithWhitespaceIsSourceTest` | worker/transcribee_worker/whisper_transcribe.py:215 | "the first character stripped is empty" holds exactly when the text is empty or starts with a whitespace character |
| `PostProcess.Merge` | worker/transcribee_worker/whisper_transcribe.py:220 | merging keeps the held-back paragraph's speaker and language, joins the texts, keeps its start unless it has no atoms and takes the other's end unless that has no atoms |
| `PostProcess.RecombineFrom` | worker/transcribee_worker/whisper_transcribe.py:209-223 | from a held-back paragraph the generator yields at least it and at most one paragraph per input, the first keeping the held-back paragraph's speaker and language |
| `PostProcess.RecombineSplitWords` | worker/transcribee_worker/whisper_transcribe.py:206-223 | the generator yields nothing exactly when it receives nothing, and never more paragraphs than it receives |
| `PostProcess.RecombineFromRuns` | worker/transcribee_worker/whisper_transcribe.py:210-220 | from a held-back paragraph, the loop's output is the reference: the first run merged into it when that run continues a word, then one paragraph per further run |
| `PostProcess.RecombineIsMergedRuns` | worker/transcribee_worker/whisper_transcribe.py:206-223 | the generator's output is one merged paragraph per maximal run of paragraphs that continue a word |
| `PostProcess.BreaksAreWhitespaceStarts` | worker/transcribee_worker/whisper_transcribe.py:215-218 | new runs open exactly at the later paragraphs that start with whitespace or are empty |
| `PostProcess.RecombineKeepsContent` | worker/transcribee_worker/whisper_transcribe.py:206-223 | output is empty exactly when input is; it has one paragraph plus one per later paragraph starting with whitespace; all atoms and the joined text are unchanged |
| `PostProcess.RecombineKeepsFirst` | worker/transcribee_worker/whisper_transcribe.py:211-220 | the first output paragraph keeps the first input's speaker and language and begins with its atoms |
| `PostProcess.RecombineMergesRuns` | worker/transcribee_worker/whisper_transcribe.py:206-223 | the runs partition the input in order, one output paragraph per run, each with the run's first speaker and language and all its atoms |
| `PostProcess.RunsOpenAtWhitespace` | worker/transcribee_worker/whisper_transcribe.py:215-220 | every run after the first opens with a paragraph that starts with whitespace, and no other paragraph of a run does |
| `PostProcess.TrimFirst` | worker/transcribee_worker/whisper_transcribe.py:230 | the first atom's text is stripped and nothing else changes, so the paragraph keeps its start and end |
| `PostProcess.FirstChildless` | worker/transcribee_worker/whisper_transcribe.py:229-230 | the position of the first paragraph without atoms: all before it have atoms |
| `PostProcess.RemoveLeadingWhitespace` | worker/transcribee_worker/whisper_transcribe.py:226-231 | the stage raises exactly when some paragraph has no atoms; it yields every paragraph before the first such one, each with its first atom's text stripped and nothing else changed |
| `PostProcess.TrimmedText` | worker/transcribee_worker/whisper_transcribe.py:230 | a trimmed paragraph's text is its stripped first atom followed by the other atoms' texts |
| `PostProcess.RemoveLeadingWhitespaceIdempotent` | worker/transcribee_worker/whisper_transcribe.py:226-231 | on a stream it does not fail on, applying the stage twice is applying it once |
| `PostProcess.YieldedChildren` | worker/transcribee_worker/whisper_transcribe.py:229-231 | when the stage does not fail, it keeps the number of atoms |
| `PostProcess.TranscribeClean` | worker/transcribee_worker/whisper_transcribe.py:234-250 | the cleaned pipeline yields no more paragraphs than the engine published, and nothing, without failing, from nothing |
| `PostProcess.TranscribeCleanRaises` | worker/transcribee_worker/whisper_transcribe.py:234-250 | the cleaned stream fails exactly when some run of word-continuing paragraphs has no atoms at all |
| `PostProcess.TranscribeCleanKeepsAtoms` | worker/transcribee_worker/whisper_transcribe.py:237-250 | when the cleaned stream does not fail, it has one paragraph per run and as many atoms as the input |
| `PostProcess.TranscribeCleanYieldsTrimmedRuns` | worker/transcribee_worker/whisper_transcribe.py:237-250 | each cleaned paragraph is its run merged into one, with the first atom stripped; that atom's text neither starts nor ends with whitespace |
| `PostProcess.EmptyParagraphRaises` | worker/transcribee_worker/whisper_transcribe.py:215-230 | an empty paragraph followed by one that starts with whitespace survives merging, and the cleaned stream fails before yielding anything |

## Left out

- Model download and loading (`get_model_file`, `get_context`): file-system and network I/O.
- The engine configuration and the inference call (lines 136-160 of `whisper_transcribe.py`). The engine's segments, its detected language and its special token ids are parameters of the model.
- The asyncio bridge `transcribe` (lines 165-203): threads, the event loop and the queue. `SegmentBuilder.Published` assumes the queue delivers in publishing order.
- Progress callbacks and logging: side effects that do not affect the paragraphs.
- The confidence timestamp (`conf_ts`) is averaged by the recombiner. `Atom` has no such field, so pydantic drops it. `Recombiner.TextUnit` keeps it, and `SegmentBuilder.ToAtom` drops it as well.
- `Paragraph` requires a speaker, but `handle_new_segment` constructs one without it, which pydantic rejects at run time. The model takes the speaker as a parameter instead of modelling that validation failure.
- Python floats are exact `real`s: no rounding of the confidence mean or of the 10 ms to seconds division.
- In-place mutation and aliasing are not modelled. `iter_lang_blocks` extends, with `+=`, the own children list of the first paragraph of each block that spans several paragraphs, so after one call `Document.text()` and `iter_atoms()` show the atoms of those blocks' later paragraphs twice and a second call yields different blocks; `recombine_split_words` extends the held-back paragraph. The model computes the values one call on an unmutated document yields, without changing its inputs.
- The pydantic `type` literal and validation of the document classes.
- `SegmentBuilder.HandleNewSegment` requires `n_new <= full_n_segments()`, which the engine guarantees. A larger count would start the segment loop at a negative index.
- `Recombiner.Run`'s own contract bounds only the number of units. Its content is stated by `Recombiner.RunMatchesGroups` and the lemmas after it.
