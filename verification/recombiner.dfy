/**
 The token loop inside `handle_new_segment` of
 `worker/transcribee_worker/whisper_transcribe.py`. Special tokens are
 dropped; the bytes of the others are gathered in a tail until the tail
 plus the current token decode as UTF-8, and then one text unit is emitted
 carrying the decoded text, the mean confidences of the tokens it took and
 the current token's times scaled from 10 ms ticks to seconds.

 The engine is not modelled: a token's bytes (`token_to_bytes(id)`), its
 probabilities and its times are plain inputs.
 */
module Recombiner {
  import opened Options
  import opened Seqs
  import opened Utf8

  /** One token as the engine reports it. Times are in 10 ms ticks. */
  datatype Token = Token(id: int, bytes: seq<byte>, p: real, pt: real, t0: real, t1: real)

  /** The context's special token ids in the order the worker lists them; `beg` is the last entry. */
  datatype SpecialTokens = SpecialTokens(eot: int, sot: int, prev: int, solm: int, noTimestamps: int, beg: int)
  {
    function AsList(): seq<int> {
      [eot, sot, prev, solm, noTimestamps, beg]
    }
  }

  /**
   The undecodable bytes carried between tokens with the sums of their
   confidences, their number and the recorded start (`rest_token_bytes`,
   `rest_conf`, `rest_conf_ts`, `rest_count`, `rest_start`).
   */
  datatype Tail = Tail(bytes: seq<byte>, conf: real, confTs: real, count: nat, start: real)

  /** The tail at the start of a callback and after every emitted unit. */
  const EmptyTail := Tail([], 0.0, 0.0, 0, 0.0)

  /**
   The values the worker passes to `Atom(...)`. Times are in seconds;
   `confTs` is passed too but the document's `Atom` has no such field.
   */
  datatype TextUnit = TextUnit(text: string, conf: real, confTs: real, start: real, end: real)

  /** Python's `total / count` for a positive count. */
  function Mean(total: real, count: nat): real
    requires count > 0
  {
    total / count as real
  }

  datatype StepResult = StepResult(tail: Tail, emitted: Option<TextUnit>)

  datatype Progress = Progress(tail: Tail, units: seq<TextUnit>)

  /** The filter of the token loop: a special id, or an id above the last special one. */
  predicate Skipped(t: Token, sp: SpecialTokens) {
    var ids := sp.AsList();
    t.id in ids || t.id > ids[|ids| - 1]
  }

  /**
   One iteration of the token loop. A skipped token changes nothing. A token
   whose bytes complete the tail to valid UTF-8 yields exactly one unit with
   the decoded text and resets the tail; any other token is absorbed into
   the tail and yields nothing.

   As in the source, the start of the unit is the recorded start when that
   is non-zero, and the recorded start is only overwritten when it is
   already non-zero, so it never leaves 0.
   */
  function Step(st: Tail, tok: Token, sp: SpecialTokens): (r: StepResult)
    ensures r.emitted.Some? <==> !Skipped(tok, sp) && Valid(st.bytes + tok.bytes)
    ensures Skipped(tok, sp) ==> r.tail == st
    ensures r.emitted.Some? ==>
              && r.tail == EmptyTail
              && r.emitted.value.text == Decode(st.bytes + tok.bytes)
              && r.emitted.value.end == tok.t1 / 100.0
    ensures !Skipped(tok, sp) && r.emitted.None? ==>
              && r.tail.bytes == st.bytes + tok.bytes
              && r.tail.count == st.count + 1
              && r.tail.conf == st.conf + tok.p
              && r.tail.confTs == st.confTs + tok.pt
  {
    if Skipped(tok, sp) then StepResult(st, None)
    else
      var joined := st.bytes + tok.bytes;
      if Valid(joined) then
        var start := if st.start != 0.0 then st.start else tok.t0;
        var u := TextUnit(Decode(joined), Mean(st.conf + tok.p, st.count + 1),
                          Mean(st.confTs + tok.pt, st.count + 1), start / 100.0, tok.t1 / 100.0);
        StepResult(EmptyTail, Some(u))
      else
        var start := if st.start != 0.0 then tok.t0 else st.start;
        StepResult(Tail(joined, st.conf + tok.p, st.confTs + tok.pt, st.count + 1, start), None)
  }

  /** The token loop over `toks` from tail `st`: the units emitted, in order, and the tail left. */
  function Run(st: Tail, toks: seq<Token>, sp: SpecialTokens): (r: Progress)
    ensures |r.units| <= |toks|
    decreases |toks|
  {
    if |toks| == 0 then Progress(st, [])
    else
      var s := Step(st, toks[0], sp);
      var rest := Run(s.tail, toks[1..], sp);
      Progress(rest.tail, (if s.emitted.Some? then [s.emitted.value] else []) + rest.units)
  }

  /** The tokens of `toks` the filter keeps, in order. */
  function Kept(toks: seq<Token>, sp: SpecialTokens): (r: seq<Token>)
    ensures |r| <= |toks|
    decreases |toks|
  {
    if |toks| == 0 then []
    else (if Skipped(toks[0], sp) then [] else [toks[0]]) + Kept(toks[1..], sp)
  }

  /** The filter keeps exactly the tokens that are not skipped. */
  lemma {:induction false} KeptMembers(toks: seq<Token>, sp: SpecialTokens)
    ensures forall t :: t in Kept(toks, sp) <==> t in toks && !Skipped(t, sp)
    decreases |toks|
  {
    if |toks| > 0 {
      KeptMembers(toks[1..], sp);
      assert toks == [toks[0]] + toks[1..];
    }
  }

  /** Skipped tokens contribute nothing: the loop behaves as on the kept tokens alone. */
  lemma {:induction false} RunKeptOnly(st: Tail, toks: seq<Token>, sp: SpecialTokens)
    ensures Run(st, toks, sp) == Run(st, Kept(toks, sp), sp)
    decreases |toks|
  {
    if |toks| > 0 {
      RunKeptOnly(Step(st, toks[0], sp).tail, toks[1..], sp);
      if Skipped(toks[0], sp) {
        assert Kept(toks, sp) == [] + Kept(toks[1..], sp);
        assert [] + Kept(toks[1..], sp) == Kept(toks[1..], sp);
      } else {
        var k := Kept(toks, sp);
        assert k == [toks[0]] + Kept(toks[1..], sp);
        assert k[1..] == Kept(toks[1..], sp);
      }
    }
  }

  /** Running over `a + b` is running over `a`, then over `b` from the tail `a` left. */
  lemma {:induction false} RunAppend(st: Tail, a: seq<Token>, b: seq<Token>, sp: SpecialTokens)
    ensures var ra := Run(st, a, sp);
            var rb := Run(ra.tail, b, sp);
            Run(st, a + b, sp) == Progress(rb.tail, ra.units + rb.units)
    decreases |a|
  {
    if |a| == 0 {
      assert a + b == b;
    } else {
      RunAppend(Step(st, a[0], sp).tail, a[1..], b, sp);
      RunAppendStep(st, a, b, sp);
    }
  }

  /** The inductive step of `RunAppend`: the first token of `a` is the first token of `a + b`. */
  lemma RunAppendStep(st: Tail, a: seq<Token>, b: seq<Token>, sp: SpecialTokens)
    requires |a| > 0
    requires var st' := Step(st, a[0], sp).tail;
             var ra := Run(st', a[1..], sp);
             Run(st', a[1..] + b, sp) == Progress(Run(ra.tail, b, sp).tail, ra.units + Run(ra.tail, b, sp).units)
    ensures var ra := Run(st, a, sp);
            var rb := Run(ra.tail, b, sp);
            Run(st, a + b, sp) == Progress(rb.tail, ra.units + rb.units)
  {
    var s := Step(st, a[0], sp);
    var e: seq<TextUnit> := if s.emitted.Some? then [s.emitted.value] else [];
    var ra' := Run(s.tail, a[1..], sp);
    var rb := Run(ra'.tail, b, sp);
    assert (a + b)[0] == a[0];
    assert (a + b)[1..] == a[1..] + b;
    assert Run(st, a, sp) == Progress(ra'.tail, e + ra'.units);
    assert e + (ra'.units + rb.units) == (e + ra'.units) + rb.units;
  }

  // ---------------------------------------------------------------------
  // Reference definition: the kept tokens cut into decodable groups.
  // ---------------------------------------------------------------------

  /** Concatenation of the token bytes of `ts`. */
  function Bytes(ts: seq<Token>): seq<byte>
    decreases |ts|
  {
    if |ts| == 0 then [] else Bytes(ts[..|ts| - 1]) + Last(ts).bytes
  }

  /** Sum of the `p` confidences of `ts`. */
  function SumP(ts: seq<Token>): real
    decreases |ts|
  {
    if |ts| == 0 then 0.0 else SumP(ts[..|ts| - 1]) + Last(ts).p
  }

  /** Sum of the `pt` timestamp confidences of `ts`. */
  function SumPt(ts: seq<Token>): real
    decreases |ts|
  {
    if |ts| == 0 then 0.0 else SumPt(ts[..|ts| - 1]) + Last(ts).pt
  }

  lemma {:induction false} BytesAppend(a: seq<Token>, b: seq<Token>)
    ensures Bytes(a + b) == Bytes(a) + Bytes(b)
    decreases |b|
  {
    if |b| == 0 {
      assert a + b == a;
    } else {
      var b' := b[..|b| - 1];
      assert (a + b)[..|a + b| - 1] == a + b';
      BytesAppend(a, b');
    }
  }

  /** The tail that stands for the pending tokens `pending`. */
  function Summary(pending: seq<Token>): Tail {
    Tail(Bytes(pending), SumP(pending), SumPt(pending), |pending|, 0.0)
  }

  /**
   The unit a decodable group of tokens becomes: its decoded bytes, the mean
   of its confidences, and the times of its last token in seconds.
   */
  function UnitOf(g: seq<Token>): TextUnit
    requires |g| > 0 && Valid(Bytes(g))
  {
    TextUnit(Decode(Bytes(g)), Mean(SumP(g), |g|), Mean(SumPt(g), |g|), Last(g).t0 / 100.0, Last(g).t1 / 100.0)
  }

  /** The bytes of the first k tokens of `ts` decode. */
  predicate DecodesAt(ts: seq<Token>, k: nat)
    requires k <= |ts|
  {
    Valid(Bytes(ts[..k]))
  }

  /** No non-empty prefix of `ts` has decodable bytes. */
  ghost predicate NoDecodablePrefix(ts: seq<Token>) {
    forall k :: 1 <= k <= |ts| ==> !DecodesAt(ts, k)
  }

  /** The least k >= n with decodable `Bytes(ts[..k])`, if any. */
  function FirstDecodable(ts: seq<Token>, n: nat): (r: Option<nat>)
    ensures r.Some? ==> n <= r.value <= |ts| && DecodesAt(ts, r.value)
    ensures forall k :: n <= k <= |ts| && (r.None? || k < r.value) ==> !DecodesAt(ts, k)
    decreases |ts| - n
  {
    if n > |ts| then None
    else if DecodesAt(ts, n) then Some(n)
    else FirstDecodable(ts, n + 1)
  }

  /** A group: non-empty, decodable, and no shorter non-empty prefix is. */
  ghost predicate IsGroup(g: seq<Token>) {
    |g| > 0 && Valid(Bytes(g)) && NoDecodablePrefix(g[..|g| - 1])
  }

  /**
   `ts` cut into groups: each group is the shortest non-empty prefix of what
   remains whose bytes decode. What remains when none does is `Leftover`.
   */
  function Groups(ts: seq<Token>): (r: seq<seq<Token>>)
    ensures forall k :: 0 <= k < |r| ==> IsGroup(r[k])
    decreases |ts|
  {
    match FirstDecodable(ts, 1)
    case None => []
    case Some(n) =>
      FirstGroupMinimal(ts, n);
      [ts[..n]] + Groups(ts[n..])
  }

  /** The first group is a group. */
  lemma FirstGroupMinimal(ts: seq<Token>, n: nat)
    requires FirstDecodable(ts, 1) == Some(n)
    ensures IsGroup(ts[..n])
  {
    var pre := ts[..n - 1];
    forall k | 1 <= k <= |pre| ensures !DecodesAt(pre, k) {
      assert pre[..k] == ts[..k];
      assert !DecodesAt(ts, k);
    }
    assert ts[..n][..n - 1] == pre;
  }

  /** The tokens after the last group: their bytes never decode, on any prefix. */
  function Leftover(ts: seq<Token>): (r: seq<Token>)
    ensures NoDecodablePrefix(r)
    decreases |ts|
  {
    match FirstDecodable(ts, 1)
    case None => ts
    case Some(n) => Leftover(ts[n..])
  }

  /** The groups and the leftover, read in order, are the tokens again. */
  lemma {:induction false} GroupsPartition(ts: seq<Token>)
    ensures Flatten(Groups(ts)) + Leftover(ts) == ts
    decreases |ts|
  {
    match FirstDecodable(ts, 1)
    case None =>
    case Some(n) =>
      var gs := Groups(ts);
      assert gs == [ts[..n]] + Groups(ts[n..]);
      assert gs[1..] == Groups(ts[n..]);
      assert Flatten(gs) == ts[..n] + Flatten(Groups(ts[n..]));
      assert Leftover(ts) == Leftover(ts[n..]);
      GroupsPartition(ts[n..]);
      assert ts == ts[..n] + ts[n..];
  }

  /** The units of a sequence of decodable groups. */
  function UnitsOf(gs: seq<seq<Token>>): (r: seq<TextUnit>)
    requires forall k :: 0 <= k < |gs| ==> |gs[k]| > 0 && Valid(Bytes(gs[k]))
    ensures |r| == |gs|
    ensures forall k :: 0 <= k < |gs| ==> r[k] == UnitOf(gs[k])
    decreases |gs|
  {
    if |gs| == 0 then [] else [UnitOf(gs[0])] + UnitsOf(gs[1..])
  }

  /** The tail of `pending + [t]` extends the tail of `pending` by `t`. */
  lemma SummaryAppend(pending: seq<Token>, t: Token)
    ensures var q := pending + [t];
            && Bytes(q) == Bytes(pending) + t.bytes
            && SumP(q) == SumP(pending) + t.p
            && SumPt(q) == SumPt(pending) + t.pt
  {
    var q := pending + [t];
    assert q[..|q| - 1] == pending;
  }

  /**
   A token that completes the pending tokens' bytes to valid UTF-8 emits the
   unit of `pending + [t]`: the decoding of all their bytes, confidences that
   are the means over those k + 1 tokens, and the times of `t` itself,
   scaled; the tail is reset.
   */
  lemma StepAverages(pending: seq<Token>, t: Token, sp: SpecialTokens)
    requires !Skipped(t, sp) && Valid(Bytes(pending + [t]))
    ensures var r := Step(Summary(pending), t, sp);
            && r.tail == EmptyTail
            && r.emitted == Some(UnitOf(pending + [t]))
  {
    SummaryAppend(pending, t);
  }

  /** A kept token that does not complete decodable bytes leaves the tail of `pending + [t]`. */
  lemma StepAbsorbs(pending: seq<Token>, t: Token, sp: SpecialTokens)
    requires !Skipped(t, sp) && !Valid(Bytes(pending + [t]))
    ensures Step(Summary(pending), t, sp) == StepResult(Summary(pending + [t]), None)
  {
    SummaryAppend(pending, t);
  }

  lemma {:induction false} RunFromSummary(pending: seq<Token>, ts: seq<Token>, sp: SpecialTokens)
    requires forall t :: t in ts ==> !Skipped(t, sp)
    requires NoDecodablePrefix(pending)
    ensures Run(Summary(pending), ts, sp) ==
            Progress(Summary(Leftover(pending + ts)), UnitsOf(Groups(pending + ts)))
    decreases |ts|
  {
    if |ts| == 0 {
      assert pending + ts == pending;
      assert FirstDecodable(pending, 1).None?;
    } else {
      var t := ts[0];
      var q := pending + [t];
      var all := pending + ts;
      assert all == q + ts[1..];
      SummaryAppend(pending, t);
      if Valid(Bytes(q)) {
        StepAverages(pending, t, sp);
        assert all[..|q|] == q;
        assert forall k :: 1 <= k <= |pending| ==> all[..k] == pending[..k];
        forall k | 1 <= k <= |pending| ensures !DecodesAt(all, k) {
          assert all[..k] == pending[..k];
          assert !DecodesAt(pending, k);
        }
        assert DecodesAt(all, |q|);
        assert FirstDecodable(all, 1) == Some(|q|);
        assert all[|q|..] == ts[1..];
        assert Summary([]) == EmptyTail;
        RunFromSummary([], ts[1..], sp);
        assert [] + ts[1..] == ts[1..];
      } else {
        assert NoDecodablePrefix(q) by {
          forall k | 1 <= k <= |q| ensures !DecodesAt(q, k) {
            if k <= |pending| {
              assert q[..k] == pending[..k];
              assert !DecodesAt(pending, k);
            } else {
              assert q[..k] == q;
            }
          }
        }
        StepAbsorbs(pending, t, sp);
        RunFromSummary(q, ts[1..], sp);
      }
    }
  }

  /** The unit carries the times of token `t`, scaled from 10 ms ticks to seconds. */
  predicate TimedBy(u: TextUnit, t: Token) {
    u.start == t.t0 / 100.0 && u.end == t.t1 / 100.0
  }

  /**
   The incremental loop agrees with the reference: from the empty tail, the
   units are one per decodable group of the kept tokens, in order, and the
   tail left stands for the undecodable leftover, with a recorded start
   that never leaves 0.
   */
  lemma RunMatchesGroups(toks: seq<Token>, sp: SpecialTokens)
    ensures var kept := Kept(toks, sp);
            Run(EmptyTail, toks, sp) == Progress(Summary(Leftover(kept)), UnitsOf(Groups(kept)))
    ensures Run(EmptyTail, toks, sp).tail.start == 0.0
  {
    var kept := Kept(toks, sp);
    RunKeptOnly(EmptyTail, toks, sp);
    assert Summary([]) == EmptyTail;
    KeptMembers(toks, sp);
    RunFromSummary([], kept, sp);
    assert [] + kept == kept;
  }

  /**
   Every emitted unit carries the times of one kept token (the last of its
   group), scaled from 10 ms ticks to seconds.
   */
  lemma UnitsCarryTokenTimes(toks: seq<Token>, sp: SpecialTokens)
    ensures forall u :: u in Run(EmptyTail, toks, sp).units ==>
              exists t :: t in toks && !Skipped(t, sp) && TimedBy(u, t)
  {
    var kept := Kept(toks, sp);
    RunMatchesGroups(toks, sp);
    var gs := Groups(kept);
    var units := UnitsOf(gs);
    GroupsPartition(kept);
    KeptMembers(toks, sp);
    forall u | u in units
      ensures exists t :: t in toks && !Skipped(t, sp) && TimedBy(u, t)
    {
      var k :| 0 <= k < |units| && units[k] == u;
      UnitFromKept(gs, k, kept);
      var t := Last(gs[k]);
      assert u == UnitOf(gs[k]);
      assert TimedBy(u, t);
      assert t in toks && !Skipped(t, sp);
    }
  }

  /** The last token of a group is among the tokens the groups were cut from. */
  lemma UnitFromKept(gs: seq<seq<Token>>, k: nat, kept: seq<Token>)
    requires k < |gs| && |gs[k]| > 0
    requires Flatten(gs) + Leftover(kept) == kept
    ensures Last(gs[k]) in kept
  {
    FlattenMember(gs, k, |gs[k]| - 1);
  }

  lemma {:induction false} FlattenMember<T>(xss: seq<seq<T>>, k: nat, j: nat)
    requires k < |xss| && j < |xss[k]|
    ensures xss[k][j] in Flatten(xss)
    decreases k
  {
    if k > 0 {
      FlattenMember(xss[1..], k - 1, j);
    }
  }

  /** Concatenation of the texts of `us`. */
  function UnitTexts(us: seq<TextUnit>): string
    decreases |us|
  {
    if |us| == 0 then [] else us[0].text + UnitTexts(us[1..])
  }

  /** When the bytes of a token run decode as a whole, the groups cover it and their texts are its decoding. */
  lemma {:induction false} GroupsRoundTrip(ts: seq<Token>)
    requires Valid(Bytes(ts))
    ensures Leftover(ts) == []
    ensures UnitTexts(UnitsOf(Groups(ts))) == Decode(Bytes(ts))
    decreases |ts|
  {
    WholeDecodes(ts);
    match FirstDecodable(ts, 1)
    case None =>
    case Some(n) =>
      RestDecodes(ts, n);
      GroupsRoundTrip(ts[n..]);
      GroupsTextCons(ts, n);
      BytesSplit(ts, n);
      assert DecodesAt(ts, n);
      DecodeAppend(Bytes(ts[..n]), Bytes(ts[n..]));
  }

  /** After the first group of a well-formed token sequence, the rest is well-formed too. */
  lemma RestDecodes(ts: seq<Token>, n: nat)
    requires Valid(Bytes(ts)) && FirstDecodable(ts, 1) == Some(n)
    ensures Valid(Bytes(ts[n..]))
  {
    assert ts == ts[..n] + ts[n..];
    BytesAppend(ts[..n], ts[n..]);
    ValidSuffix(Bytes(ts[..n]), Bytes(ts[n..]));
  }

  /** The bytes of a token sequence are those of its prefix, then those of its suffix. */
  lemma BytesSplit(ts: seq<Token>, n: nat)
    requires n <= |ts|
    ensures Bytes(ts) == Bytes(ts[..n]) + Bytes(ts[n..])
  {
    assert ts == ts[..n] + ts[n..];
    BytesAppend(ts[..n], ts[n..]);
  }

  /** The group texts are the first group's decoded text, then the texts of the rest's groups. */
  lemma GroupsTextCons(ts: seq<Token>, n: nat)
    requires FirstDecodable(ts, 1) == Some(n)
    ensures UnitTexts(UnitsOf(Groups(ts))) == Decode(Bytes(ts[..n])) + UnitTexts(UnitsOf(Groups(ts[n..])))
  {
    var us := UnitsOf(Groups(ts));
    assert Groups(ts) == [ts[..n]] + Groups(ts[n..]);
    assert us[1..] == UnitsOf(Groups(ts[n..]));
  }

  /** A non-empty token run whose bytes decode has a first decodable group. */
  lemma WholeDecodes(ts: seq<Token>)
    requires Valid(Bytes(ts))
    ensures |ts| > 0 ==> FirstDecodable(ts, 1).Some?
  {
    if |ts| > 0 {
      assert ts[..|ts|] == ts;
      assert DecodesAt(ts, |ts|);
    }
  }

  /**
   Recombination is lossless on well-formed input: when the kept tokens'
   bytes decode as a whole, the units' texts joined are that decoding and no
   tail is left over.
   */
  lemma RecombineDecodes(toks: seq<Token>, sp: SpecialTokens)
    requires Valid(Bytes(Kept(toks, sp)))
    ensures UnitTexts(Run(EmptyTail, toks, sp).units) == Decode(Bytes(Kept(toks, sp)))
    ensures Run(EmptyTail, toks, sp).tail == EmptyTail
  {
    RunMatchesGroups(toks, sp);
    GroupsRoundTrip(Kept(toks, sp));
  }

  /** Tokens that spell out the UTF-8 encoding of a text are recombined into exactly that text. */
  lemma RecombineEncoded(toks: seq<Token>, sp: SpecialTokens, text: string)
    requires Bytes(Kept(toks, sp)) == Encode(text)
    ensures UnitTexts(Run(EmptyTail, toks, sp).units) == text
    ensures Run(EmptyTail, toks, sp).tail == EmptyTail
  {
    DecodeEncode(text);
    RecombineDecodes(toks, sp);
  }

  /**
   A character split across two tokens: the lead byte of "é" is carried in
   the tail, and the continuation byte completes it into one unit whose
   confidences are the means of the two tokens'.
   */
  lemma SplitCharacterMerges(sp: SpecialTokens, a: Token, b: Token)
    requires !Skipped(a, sp) && !Skipped(b, sp)
    requires a.bytes == [0xC3] && b.bytes == [0xA9]
    ensures Run(EmptyTail, [a, b], sp).units ==
            [TextUnit("\U{E9}", (a.p + b.p) / 2.0, (a.pt + b.pt) / 2.0, b.t0 / 100.0, b.t1 / 100.0)]
  {
    var s1 := Step(EmptyTail, a, sp);
    assert CharLen([0xC3]) == 0;
    assert s1.emitted.None?;
    var s2 := Step(s1.tail, b, sp);
    var bs: seq<byte> := [0xC3, 0xA9];
    assert s1.tail.bytes + b.bytes == bs;
    assert CharLen(bs) == 2;
    assert bs[2..] == [];
    assert Valid(bs);
    assert DecodeChar(bs) == '\U{E9}';
    assert Decode(bs) == "\U{E9}";
    assert [a, b][1..] == [b];
    assert [b][1..] == [];
  }
}
