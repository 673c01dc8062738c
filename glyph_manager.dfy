/**
 * The glyph manager: a per-font-stack cache of glyphs, one coalesced load per (stack, range),
 * local synthesis of CJK and Hangul glyphs, and batches of lookups that report once every
 * lookup of the batch has settled.
 *
 * Asynchrony is made explicit. `GetGlyphs` runs everything the code runs synchronously: it
 * resolves every unit of a new batch from the cache, by synthesis or by the range check, or
 * leaves it waiting on a load it starts or joins. `CompleteLoad` is the transport's later
 * callback for one outstanding load. A batch's callback is recorded in the batch as it fires.
 */
module Manager {
  import opened Common
  import GlyphRange

  type StyleGlyph = GlyphRange.StyleGlyph
  type GlyphMap = GlyphRange.GlyphMap

  // ---------------------------------------------------------------------------------------
  // Values

  /** The parameters of a local rasterizer; the rasterizer itself is the `draw` function. */
  datatype TinySdf = TinySdf(fontSize: nat, buffer: nat, radius: nat, cutoff: real,
                             fontFamily: string, fontWeight: string)

  /** One lookup of a batch: the unit `index` of batch `batch`, which waits for its range. */
  datatype Waiter = Waiter(batch: nat, index: nat)

  /** Per stack: glyphs by codepoint (`None` = requested but missing), waiters by range, rasterizer. */
  datatype Entry = Entry(glyphs: GlyphMap, requests: map<nat, seq<Waiter>>, tinySdf: Option<TinySdf>)

  datatype Unit = Unit(stack: string, id: nat)

  datatype GlyphError = GlyphsAbove65535 | LoadFailed(message: string)

  datatype UnitOutcome = Resolved(glyph: Option<StyleGlyph>) | Failed(error: GlyphError)

  datatype BatchOutcome = Failure(error: GlyphError) | Success(glyphs: map<string, GlyphMap>)

  /**
   * One `getGlyphs` call: its units, what each has reported (`None` while it waits), the error
   * most recently reported, and what the callback received once every unit had reported.
   */
  datatype Batch = Batch(units: seq<Unit>, outcomes: seq<Option<UnitOutcome>>,
                         lastError: Option<GlyphError>, delivered: Option<BatchOutcome>)

  /** A started load: the stack, the range and the URL template the manager held. */
  datatype Load = Load(stack: string, range: nat, url: Option<string>)

  /** Everything the manager and its pending callbacks hold. */
  datatype State = State(entries: map<string, Entry>, loads: seq<Load>, completions: seq<(string, nat)>,
                         sdfCreations: seq<string>, batches: seq<Batch>)

  const EmptyEntry := Entry(map[], map[], None)

  function EntryOf(entries: map<string, Entry>, stack: string): Entry {
    if stack in entries then entries[stack] else EmptyEntry
  }

  // ---------------------------------------------------------------------------------------
  // Local synthesis

  predicate IsCjkUnifiedIdeograph(id: nat) { 0x4E00 <= id <= 0x9FFF }

  predicate IsHangulSyllable(id: nat) { 0xAC00 <= id <= 0xD7AF }

  /** `_tinySDF` produces a glyph exactly when a non-empty fallback family is set and the id is CJK or Hangul. */
  predicate Synthesizes(family: Option<string>, id: nat) {
    family.Some? && family.value != "" && (IsCjkUnifiedIdeograph(id) || IsHangulSyllable(id))
  }

  function LowerAscii(c: char): char {
    if 'A' <= c <= 'Z' then (c as int + 32) as char else c
  }

  predicate MatchesAt(s: string, word: string, i: nat)
    requires i + |word| <= |s|
  {
    forall k :: 0 <= k < |word| ==> LowerAscii(s[i + k]) == word[k]
  }

  /**
   * `/word/i.test(s)` for a lower-case ASCII word: some position where `s` spells the word
   * ignoring ASCII case. (Case-insensitive matching without the unicode flag never maps a
   * non-ASCII character onto an ASCII one.)
   */
  function ContainsIgnoringCase(s: string, word: string, from: nat): (r: bool)
    requires from <= |s|
    ensures r <==> exists i :: from <= i && i + |word| <= |s| && MatchesAt(s, word, i)
    decreases |s| - from
  {
    if from + |word| > |s| then false
    else if MatchesAt(s, word, from) then true
    else if from == |s| then false
    else ContainsIgnoringCase(s, word, from + 1)
  }

  predicate Mentions(stack: string, word: string) {
    ContainsIgnoringCase(stack, word, 0)
  }

  /** The CSS weight for a stack's rasterizer: `bold` wins over `medium`, which wins over `light`. */
  function FontWeight(stack: string): (w: string)
    ensures w == "900" <==> Mentions(stack, "bold")
    ensures w == "500" <==> !Mentions(stack, "bold") && Mentions(stack, "medium")
    ensures w == "200" <==> !Mentions(stack, "bold") && !Mentions(stack, "medium") && Mentions(stack, "light")
    ensures w == "400" <==> !Mentions(stack, "bold") && !Mentions(stack, "medium") && !Mentions(stack, "light")
  {
    if Mentions(stack, "bold") then "900"
    else if Mentions(stack, "medium") then "500"
    else if Mentions(stack, "light") then "200"
    else "400"
  }

  /** `new TinySDF(24, 3, 8, .25, family, weight)`. */
  function MakeTinySdf(family: string, stack: string): TinySdf {
    TinySdf(24, 3, 8, 0.25, family, FontWeight(stack))
  }

  /** A synthesised glyph: the drawing of `String.fromCharCode(id)` with fixed metrics 24/24/0/-8/24. */
  function SynthGlyph(draw: (TinySdf, char) -> seq<Byte>, sdf: TinySdf, id: nat): (g: StyleGlyph)
    requires id < 0xD800
    ensures g.id == Some(id) && g.bitmap.Some?
    ensures g.metrics == GlyphRange.Metrics(Some(24), Some(24), Some(0), Some(-8), Some(24))
  {
    GlyphRange.StyleGlyph(Some(id), Some(draw(sdf, id as char)),
                          GlyphRange.Metrics(Some(24), Some(24), Some(0), Some(-8), Some(24)))
  }

  // ---------------------------------------------------------------------------------------
  // Batches

  /** The units of a request, stack by stack, each stack's ids in order. */
  function Flatten(request: seq<(string, seq<nat>)>): seq<Unit> {
    if request == [] then []
    else Flatten(request[..|request| - 1]) + UnitsOf(request[|request| - 1].0, request[|request| - 1].1)
  }

  function UnitsOf(stack: string, ids: seq<nat>): (units: seq<Unit>)
    ensures |units| == |ids| && forall k :: 0 <= k < |ids| ==> units[k] == Unit(stack, ids[k])
  {
    seq(|ids|, k requires 0 <= k < |ids| => Unit(stack, ids[k]))
  }

  predicate AllSettled(b: Batch) {
    forall k :: 0 <= k < |b.outcomes| ==> b.outcomes[k].Some?
  }

  function GlyphOfOutcome(o: Option<UnitOutcome>): Option<StyleGlyph> {
    if o.Some? && o.value.Resolved? then o.value.glyph else None
  }

  /** `result[stack][id] = glyph` for every unit in order: a later unit overwrites an earlier one. */
  function Aggregate(units: seq<Unit>, outcomes: seq<Option<UnitOutcome>>): map<string, GlyphMap>
    requires |outcomes| == |units|
  {
    if units == [] then map[]
    else
      var m := Aggregate(units[..|units| - 1], outcomes[..|units| - 1]);
      var u := units[|units| - 1];
      m[u.stack := EntryGlyphs(m, u.stack)[u.id := GlyphOfOutcome(outcomes[|units| - 1])]]
  }

  function EntryGlyphs(m: map<string, GlyphMap>, stack: string): GlyphMap {
    if stack in m then m[stack] else map[]
  }

  /** What the batch callback receives: the error if any unit failed, else the grouped glyphs. */
  function Outcome(b: Batch): BatchOutcome
    requires |b.outcomes| == |b.units|
  {
    if b.lastError.Some? then Failure(b.lastError.value) else Success(Aggregate(b.units, b.outcomes))
  }

  /** A fresh batch: nothing has reported; with no units the callback fires at once with `{}`. */
  function NewBatch(units: seq<Unit>): (b: Batch)
    ensures |b.outcomes| == |b.units| == |units|
  {
    var outcomes := seq(|units|, _ => None);
    Batch(units, outcomes, None, if units == [] then Some(Success(map[])) else None)
  }

  predicate Indexes(batches: seq<Batch>, w: Waiter) {
    w.batch < |batches| && w.index < |batches[w.batch].units| == |batches[w.batch].outcomes|
  }

  predicate SameShape(before: seq<Batch>, after: seq<Batch>) {
    && |after| == |before|
    && forall b :: 0 <= b < |before| ==>
         after[b].units == before[b].units && |after[b].outcomes| == |before[b].outcomes|
  }

  /** A unit reports: its outcome is stored, an error becomes the batch's error, and when it was the last to report, the callback fires. */
  function Report(batches: seq<Batch>, w: Waiter, o: UnitOutcome): (r: seq<Batch>)
    requires Indexes(batches, w)
    ensures SameShape(batches, r)
  {
    var b := batches[w.batch];
    var b1 := b.(outcomes := b.outcomes[w.index := Some(o)],
                 lastError := if o.Failed? then Some(o.error) else b.lastError);
    var b2 := if AllSettled(b1) then b1.(delivered := Some(Outcome(b1))) else b1;
    batches[w.batch := b2]
  }

  // ---------------------------------------------------------------------------------------
  // Transitions

  /** The manager's configuration: the fallback family and the rasterizer. */
  datatype Config = Config(family: Option<string>, draw: (TinySdf, char) -> seq<Byte>)

  function RangeOf(id: nat): nat { id / 256 }

  /** The stack's entry, created empty on first reference; an existing entry is never replaced. */
  function WithEntry(s: State, stack: string): (r: State)
    ensures stack in r.entries && r.batches == s.batches
  {
    s.(entries := s.entries[stack := EntryOf(s.entries, stack)])
  }

  /** A unit's callback: the batch records its outcome. */
  function Reported(s: State, w: Waiter, o: UnitOutcome): (r: State)
    requires Indexes(s.batches, w)
    ensures SameShape(s.batches, r.batches)
  {
    s.(batches := Report(s.batches, w, o))
  }

  /** `_tinySDF` with a configured family: the stack's rasterizer is created unless it exists. */
  function WithTinySdf(cfg: Config, s: State, stack: string): (r: State)
    requires stack in s.entries && cfg.family.Some?
    ensures stack in r.entries && r.entries[stack].tinySdf.Some? && r.batches == s.batches
  {
    var e := s.entries[stack];
    if e.tinySdf.Some? then s
    else s.(entries := s.entries[stack := e.(tinySdf := Some(MakeTinySdf(cfg.family.value, stack)))],
            sdfCreations := s.sdfCreations + [stack])
  }

  /** The unit reports the glyph drawn by its stack's rasterizer. */
  function Synthesized(cfg: Config, s: State, w: Waiter): (r: State)
    requires Indexes(s.batches, w) && Synthesizes(cfg.family, UnitAt(s.batches, w).id)
    requires UnitAt(s.batches, w).stack in s.entries && s.entries[UnitAt(s.batches, w).stack].tinySdf.Some?
    ensures SameShape(s.batches, r.batches)
  {
    var unit := UnitAt(s.batches, w);
    Reported(s, w, Resolved(Some(SynthGlyph(cfg.draw, s.entries[unit.stack].tinySdf.value, unit.id))))
  }

  /** The unit joins the waiters of its range, starting the load if there were none. */
  function Wait(url: Option<string>, s: State, w: Waiter, stack: string, range: nat): (r: State)
    requires stack in s.entries
    ensures r.batches == s.batches
  {
    var e := s.entries[stack];
    if range in e.requests then s.(entries := s.entries[stack := e.(requests := e.requests[range := e.requests[range] + [w]])])
    else s.(entries := s.entries[stack := e.(requests := e.requests[range := [w]])],
            loads := s.loads + [Load(stack, range, url)])
  }

  /**
   * The per-unit resolver, in the code's order: an entry for the stack is created if missing;
   * a cached value (glyph or `null`) answers at once; otherwise a synthesised glyph; otherwise
   * a range above 65535 fails; otherwise the unit waits on its range, starting the load if
   * the range has no waiters yet.
   */
  function Resolve(cfg: Config, url: Option<string>, s: State, w: Waiter): (r: State)
    requires Indexes(s.batches, w)
    ensures SameShape(s.batches, r.batches)
  {
    var unit := UnitAt(s.batches, w);
    var s1 := WithEntry(s, unit.stack);
    var e := s1.entries[unit.stack];
    if unit.id in e.glyphs then Reported(s1, w, Resolved(e.glyphs[unit.id]))
    else if Synthesizes(cfg.family, unit.id) then Synthesized(cfg, WithTinySdf(cfg, s1, unit.stack), w)
    else if RangeOf(unit.id) * 256 > 65535 then Reported(s1, w, Failed(GlyphsAbove65535))
    else Wait(url, s1, w, unit.stack, RangeOf(unit.id))
  }

  /** The units `k ..` of batch `b` resolved in order, each on the state the previous one left. */
  function ResolveFrom(cfg: Config, url: Option<string>, s: State, b: nat, k: nat): (r: State)
    requires b < |s.batches| && k <= |s.batches[b].units| == |s.batches[b].outcomes|
    ensures SameShape(s.batches, r.batches)
    decreases |s.batches[b].units| - k
  {
    if k == |s.batches[b].units| then s
    else ResolveFrom(cfg, url, Resolve(cfg, url, s, Waiter(b, k)), b, k + 1)
  }

  /** `getGlyphs`: a new batch of the request's units, each resolved in turn. */
  function GetGlyphsStep(cfg: Config, url: Option<string>, s: State, request: seq<(string, seq<nat>)>): (r: State)
    ensures |r.batches| == |s.batches| + 1 && r.batches[|s.batches|].units == Flatten(request)
    ensures forall b :: 0 <= b < |s.batches| ==> r.batches[b].units == s.batches[b].units
  {
    var units := Flatten(request);
    var s0 := s.(batches := s.batches + [NewBatch(units)]);
    ResolveFrom(cfg, url, s0, |s.batches|, 0)
  }

  /** What a waiter of a completed load reports: the glyph at its id, or the load's error. */
  function WaiterOutcome(result: GlyphRange.LoadResult, id: nat): UnitOutcome
    requires !result.Silent?
  {
    if result.Loaded? then Resolved(if id in result.glyphs then result.glyphs[id] else None)
    else Failed(LoadFailed(result.message))
  }

  predicate AllIndexed(batches: seq<Batch>, ws: seq<Waiter>) {
    forall k :: 0 <= k < |ws| ==> Indexes(batches, ws[k])
  }

  /** Every waiter called in push order with the load's result. */
  function NotifyAll(batches: seq<Batch>, ws: seq<Waiter>, result: GlyphRange.LoadResult): (r: seq<Batch>)
    requires !result.Silent? && AllIndexed(batches, ws)
    ensures SameShape(batches, r)
  {
    if ws == [] then batches
    else
      var init := NotifyAll(batches, ws[..|ws| - 1], result);
      var w := ws[|ws| - 1];
      Report(init, w, WaiterOutcome(result, init[w.batch].units[w.index].id))
  }

  /**
   * The load callback of (stack, range) before any waiter is notified: a response is merged
   * into the stack's glyphs (the loaded values win), the range's waiter list is deleted, and
   * the completion is recorded.
   */
  function Detached(s: State, stack: string, range: nat, result: GlyphRange.LoadResult): (r: State)
    requires Outstanding(s, stack, range) && !result.Silent?
    ensures r.batches == s.batches && !Outstanding(r, stack, range)
  {
    var e := s.entries[stack];
    var glyphs := if result.Loaded? then e.glyphs + result.glyphs else e.glyphs;
    s.(entries := s.entries[stack := e.(glyphs := glyphs, requests := e.requests - {range})],
       completions := s.completions + [(stack, range)])
  }

  /**
   * The load callback of (stack, range): a response is merged into the stack's glyphs, every
   * waiter is notified in push order, and the range's waiter list is deleted. When the
   * transport never calls back, nothing happens.
   */
  function Complete(s: State, stack: string, range: nat, result: GlyphRange.LoadResult): (r: State)
    requires Outstanding(s, stack, range)
    requires AllIndexed(s.batches, s.entries[stack].requests[range])
    ensures result.Silent? ==> r == s
    ensures !result.Silent? ==> && !Outstanding(r, stack, range) && SameShape(s.batches, r.batches)
                                && r.loads == s.loads && r.completions == s.completions + [(stack, range)]
  {
    if result.Silent? then s
    else Detached(s, stack, range, result).(batches := NotifyAll(s.batches, s.entries[stack].requests[range], result))
  }

  // ---------------------------------------------------------------------------------------
  // Invariants

  predicate FailedAt(b: Batch, k: nat)
    requires k < |b.outcomes|
  {
    b.outcomes[k].Some? && b.outcomes[k].value.Failed?
  }

  /** A batch's error is one some unit reported, and its callback fired exactly when all had reported. */
  predicate BatchOk(b: Batch) {
    && |b.outcomes| == |b.units|
    && (b.lastError.Some? ==> exists k :: 0 <= k < |b.outcomes| && b.outcomes[k] == Some(Failed(b.lastError.value)))
    && (b.lastError.None? ==> forall k :: 0 <= k < |b.outcomes| ==> !FailedAt(b, k))
    && (b.delivered.Some? <==> AllSettled(b))
    && (b.delivered.Some? ==> b.delivered.value == Outcome(b))
  }

  predicate BatchesOk(batches: seq<Batch>) {
    forall b {:trigger BatchOk(batches[b])} :: 0 <= b < |batches| ==> BatchOk(batches[b])
  }

  predicate IsPending(batches: seq<Batch>, w: Waiter) {
    Indexes(batches, w) && batches[w.batch].outcomes[w.index].None?
  }

  function UnitAt(batches: seq<Batch>, w: Waiter): Unit
    requires Indexes(batches, w)
  {
    batches[w.batch].units[w.index]
  }

  predicate Outstanding(s: State, stack: string, range: nat) {
    stack in s.entries && range in s.entries[stack].requests
  }

  /**
   * The waiters of (stack, range): pending units of that stack whose ids lie in that range,
   * none twice, none among the units `D` still to be resolved; and the range is in bounds.
   */
  predicate WaiterListOk(s: State, stack: string, range: nat, D: set<Waiter>)
    requires Outstanding(s, stack, range)
  {
    var ws := s.entries[stack].requests[range];
    && range * 256 <= 65535
    && (forall k :: 0 <= k < |ws| ==>
          && IsPending(s.batches, ws[k]) && ws[k] !in D
          && UnitAt(s.batches, ws[k]).stack == stack && RangeOf(UnitAt(s.batches, ws[k]).id) == range)
    && Distinct(ws)
  }

  predicate Distinct(ws: seq<Waiter>) {
    forall k1, k2 :: 0 <= k1 < k2 < |ws| ==> ws[k1] != ws[k2]
  }

  ghost predicate WaitersOk(s: State, D: set<Waiter>) {
    && (forall stack, range :: Outstanding(s, stack, range) ==> WaiterListOk(s, stack, range, D))
    && (forall w :: w in D ==> IsPending(s.batches, w))
  }

  predicate Waiting(s: State, w: Waiter)
    requires Indexes(s.batches, w)
  {
    var u := UnitAt(s.batches, w);
    Outstanding(s, u.stack, RangeOf(u.id)) && w in s.entries[u.stack].requests[RangeOf(u.id)]
  }

  /** Every unit that has not reported is still to be resolved or waits on the load of its range. */
  predicate Covered(s: State, D: set<Waiter>) {
    forall b, k :: 0 <= b < |s.batches| && 0 <= k < |s.batches[b].outcomes| && s.batches[b].outcomes[k].None? ==>
      Indexes(s.batches, Waiter(b, k)) && (Waiter(b, k) in D || Waiting(s, Waiter(b, k)))
  }

  function LoadCount(loads: seq<Load>, stack: string, range: nat): nat {
    if loads == [] then 0
    else LoadCount(loads[..|loads| - 1], stack, range)
         + (if loads[|loads| - 1].stack == stack && loads[|loads| - 1].range == range then 1 else 0)
  }

  function CompletionCount(completions: seq<(string, nat)>, stack: string, range: nat): nat {
    if completions == [] then 0
    else CompletionCount(completions[..|completions| - 1], stack, range)
         + (if completions[|completions| - 1] == (stack, range) then 1 else 0)
  }

  /** Loads started for (stack, range) = loads completed + 1 while its waiter list exists, else + 0. */
  ghost predicate Coalesced(s: State) {
    forall stack, range :: LoadCount(s.loads, stack, range)
                           == CompletionCount(s.completions, stack, range) + (if Outstanding(s, stack, range) then 1 else 0)
  }

  function StackCount(stacks: seq<string>, stack: string): nat {
    if stacks == [] then 0
    else StackCount(stacks[..|stacks| - 1], stack) + (if stacks[|stacks| - 1] == stack then 1 else 0)
  }

  predicate HasTinySdf(s: State, stack: string) {
    stack in s.entries && s.entries[stack].tinySdf.Some?
  }

  /** A stack's rasterizer was created once, with the configured family and the stack's weight. */
  ghost predicate TinySdfOnce(cfg: Config, s: State) {
    forall stack :: && StackCount(s.sdfCreations, stack) == (if HasTinySdf(s, stack) then 1 else 0)
                    && (HasTinySdf(s, stack) ==> cfg.family.Some? && s.entries[stack].tinySdf.value == MakeTinySdf(cfg.family.value, stack))
  }

  /** The manager's invariant; `D` are units of the current batch that have not been resolved yet. */
  ghost predicate Inv(cfg: Config, s: State, D: set<Waiter>) {
    BatchesOk(s.batches) && WaitersOk(s, D) && Covered(s, D) && Coalesced(s) && TinySdfOnce(cfg, s)
  }

  // ---------------------------------------------------------------------------------------
  // Preservation of the invariant

  lemma LoadCountAppend(loads: seq<Load>, l: Load, stack: string, range: nat)
    ensures LoadCount(loads + [l], stack, range)
            == LoadCount(loads, stack, range) + (if l.stack == stack && l.range == range then 1 else 0)
  {
    assert (loads + [l])[..|loads|] == loads;
  }

  lemma CompletionCountAppend(cs: seq<(string, nat)>, c: (string, nat), stack: string, range: nat)
    ensures CompletionCount(cs + [c], stack, range)
            == CompletionCount(cs, stack, range) + (if c == (stack, range) then 1 else 0)
  {
    assert (cs + [c])[..|cs|] == cs;
  }

  lemma StackCountAppend(stacks: seq<string>, x: string, stack: string)
    ensures StackCount(stacks + [x], stack) == StackCount(stacks, stack) + (if x == stack then 1 else 0)
  {
    assert (stacks + [x])[..|stacks|] == stacks;
  }

  /** Reporting a pending unit keeps its batch consistent and fires the callback when it was the last. */
  lemma ReportKeepsBatch(b: Batch, k: nat, o: UnitOutcome)
    requires BatchOk(b) && k < |b.outcomes| && b.outcomes[k].None?
    ensures var b1 := b.(outcomes := b.outcomes[k := Some(o)],
                         lastError := if o.Failed? then Some(o.error) else b.lastError);
            BatchOk(if AllSettled(b1) then b1.(delivered := Some(Outcome(b1))) else b1)
  {
    var b1 := b.(outcomes := b.outcomes[k := Some(o)],
                 lastError := if o.Failed? then Some(o.error) else b.lastError);
    assert !AllSettled(b);
    if o.Failed? {
      assert b1.outcomes[k] == Some(Failed(b1.lastError.value));
    } else if b.lastError.Some? {
      var j :| 0 <= j < |b.outcomes| && b.outcomes[j] == Some(Failed(b.lastError.value));
      assert j != k;
      assert b1.outcomes[j] == b.outcomes[j];
      assert b1.lastError == b.lastError;
      assert 0 <= j < |b1.outcomes| && b1.outcomes[j] == Some(Failed(b1.lastError.value));
    } else {
      forall j | 0 <= j < |b1.outcomes|
        ensures !FailedAt(b1, j)
      {
        if j != k {
          assert !FailedAt(b, j);
          assert b1.outcomes[j] == b.outcomes[j];
        }
      }
    }
    var b2 := if AllSettled(b1) then b1.(delivered := Some(Outcome(b1))) else b1;
    assert b2.outcomes == b1.outcomes && b2.lastError == b1.lastError;
    assert forall j :: 0 <= j < |b2.outcomes| ==> (FailedAt(b2, j) <==> FailedAt(b1, j));
  }

  lemma ReportBatchesOk(batches: seq<Batch>, w: Waiter, o: UnitOutcome)
    requires BatchesOk(batches) && IsPending(batches, w)
    ensures BatchesOk(Report(batches, w, o))
  {
    var r := Report(batches, w, o);
    assert BatchOk(batches[w.batch]);
    ReportKeepsBatch(batches[w.batch], w.index, o);
    forall b | 0 <= b < |r|
      ensures BatchOk(r[b])
    {
      if b != w.batch {
        assert r[b] == batches[b];
        assert BatchOk(batches[b]);
      }
    }
  }

  lemma ReportWaiters(s: State, D: set<Waiter>, w: Waiter, o: UnitOutcome)
    requires WaitersOk(s, D) && w in D
    ensures WaitersOk(Reported(s, w, o), D - {w})
  {
    var s1 := Reported(s, w, o);
    assert forall v :: IsPending(s.batches, v) && v != w ==> IsPending(s1.batches, v);
    forall stack, range | Outstanding(s1, stack, range)
      ensures WaiterListOk(s1, stack, range, D - {w})
    {
      assert WaiterListOk(s, stack, range, D);
    }
  }

  lemma ReportCovered(s: State, D: set<Waiter>, w: Waiter, o: UnitOutcome)
    requires Covered(s, D) && IsPending(s.batches, w)
    ensures Covered(Reported(s, w, o), D - {w})
  {
    var s1 := Reported(s, w, o);
    forall b, k | 0 <= b < |s1.batches| && 0 <= k < |s1.batches[b].outcomes| && s1.batches[b].outcomes[k].None?
      ensures Indexes(s1.batches, Waiter(b, k)) && (Waiter(b, k) in D - {w} || Waiting(s1, Waiter(b, k)))
    {
      assert Waiter(b, k) != w;
      assert s.batches[b].outcomes[k].None?;
    }
  }

  /** Changing only the batches keeps the load bookkeeping and the rasterizers consistent. */
  lemma BatchesOnlyKeep(cfg: Config, s: State, batches: seq<Batch>)
    requires Coalesced(s) && TinySdfOnce(cfg, s)
    ensures Coalesced(s.(batches := batches)) && TinySdfOnce(cfg, s.(batches := batches))
  {
    var s1 := s.(batches := batches);
    assert forall st, r :: Outstanding(s1, st, r) <==> Outstanding(s, st, r);
    assert forall st :: HasTinySdf(s1, st) <==> HasTinySdf(s, st);
  }

  /** Reporting a unit still to be resolved preserves the invariant, which then no longer exempts it. */
  lemma ReportKeeps(cfg: Config, s: State, D: set<Waiter>, w: Waiter, o: UnitOutcome)
    requires Inv(cfg, s, D) && w in D
    ensures Indexes(s.batches, w)
    ensures Inv(cfg, Reported(s, w, o), D - {w})
  {
    ReportBatchesOk(s.batches, w, o);
    ReportWaiters(s, D, w, o);
    ReportCovered(s, D, w, o);
    BatchesOnlyKeep(cfg, s, Report(s.batches, w, o));
  }

  /** `s1` has the batches and the waiter lists of `s`. */
  ghost predicate SameWaiters(s: State, s1: State) {
    && s1.batches == s.batches
    && (forall st, r :: Outstanding(s1, st, r) <==> Outstanding(s, st, r))
    && (forall st, r :: Outstanding(s1, st, r) && Outstanding(s, st, r) ==>
          s1.entries[st].requests[r] == s.entries[st].requests[r])
  }

  lemma SameWaitersKeep(s: State, s1: State, D: set<Waiter>)
    requires SameWaiters(s, s1) && WaitersOk(s, D)
    ensures WaitersOk(s1, D)
  {
    forall st, r | Outstanding(s1, st, r)
      ensures WaiterListOk(s1, st, r, D)
    {
      assert WaiterListOk(s, st, r, D);
    }
  }

  lemma SameWaitersCovered(s: State, s1: State, D: set<Waiter>)
    requires SameWaiters(s, s1) && Covered(s, D)
    ensures Covered(s1, D)
  {
    forall b, k | 0 <= b < |s1.batches| && 0 <= k < |s1.batches[b].outcomes| && s1.batches[b].outcomes[k].None?
      ensures Indexes(s1.batches, Waiter(b, k)) && (Waiter(b, k) in D || Waiting(s1, Waiter(b, k)))
    {
      assert Indexes(s.batches, Waiter(b, k)) && (Waiter(b, k) in D || Waiting(s, Waiter(b, k)));
    }
  }

  lemma SameWaitersCoalesced(s: State, s1: State)
    requires SameWaiters(s, s1) && s1.loads == s.loads && s1.completions == s.completions && Coalesced(s)
    ensures Coalesced(s1)
  {
  }

  lemma WithEntryWaiters(s: State, stack: string)
    ensures SameWaiters(s, WithEntry(s, stack))
  {
  }

  lemma WithEntryTinySdf(cfg: Config, s: State, stack: string)
    requires TinySdfOnce(cfg, s)
    ensures TinySdfOnce(cfg, WithEntry(s, stack))
  {
    var s1 := WithEntry(s, stack);
    forall st
      ensures StackCount(s1.sdfCreations, st) == (if HasTinySdf(s1, st) then 1 else 0)
      ensures HasTinySdf(s1, st) ==> cfg.family.Some? && s1.entries[st].tinySdf.value == MakeTinySdf(cfg.family.value, st)
    {
      assert HasTinySdf(s1, st) <==> HasTinySdf(s, st);
      assert HasTinySdf(s1, st) ==> s1.entries[st] == s.entries[st];
    }
  }

  /** Creating the empty entry of a stack on first reference preserves the invariant. */
  lemma EnsureEntryKeeps(cfg: Config, s: State, D: set<Waiter>, stack: string)
    requires Inv(cfg, s, D)
    ensures Inv(cfg, WithEntry(s, stack), D)
  {
    var s1 := WithEntry(s, stack);
    WithEntryWaiters(s, stack);
    SameWaitersKeep(s, s1, D);
    SameWaitersCovered(s, s1, D);
    SameWaitersCoalesced(s, s1);
    WithEntryTinySdf(cfg, s, stack);
  }

  lemma WithTinySdfWaiters(cfg: Config, s: State, stack: string)
    requires stack in s.entries && cfg.family.Some?
    ensures SameWaiters(s, WithTinySdf(cfg, s, stack))
  {
  }

  lemma WithTinySdfOnce(cfg: Config, s: State, stack: string)
    requires TinySdfOnce(cfg, s) && stack in s.entries && cfg.family.Some?
    ensures TinySdfOnce(cfg, WithTinySdf(cfg, s, stack))
  {
    var s1 := WithTinySdf(cfg, s, stack);
    if s.entries[stack].tinySdf.None? {
      forall st
        ensures StackCount(s1.sdfCreations, st) == (if HasTinySdf(s1, st) then 1 else 0)
        ensures HasTinySdf(s1, st) ==> cfg.family.Some? && s1.entries[st].tinySdf.value == MakeTinySdf(cfg.family.value, st)
      {
        StackCountAppend(s.sdfCreations, stack, st);
        assert st != stack ==> (HasTinySdf(s1, st) <==> HasTinySdf(s, st));
      }
    }
  }

  lemma CreateTinySdfKeeps(cfg: Config, s: State, D: set<Waiter>, stack: string)
    requires Inv(cfg, s, D) && stack in s.entries && cfg.family.Some?
    ensures Inv(cfg, WithTinySdf(cfg, s, stack), D)
  {
    var s1 := WithTinySdf(cfg, s, stack);
    WithTinySdfWaiters(cfg, s, stack);
    SameWaitersKeep(s, s1, D);
    SameWaitersCovered(s, s1, D);
    SameWaitersCoalesced(s, s1);
    WithTinySdfOnce(cfg, s, stack);
  }

  /** The waiter list `w` joins or starts: pending units of the one stack and range. */
  lemma WaitWaiters(url: Option<string>, s: State, D: set<Waiter>, w: Waiter)
    requires WaitersOk(s, D) && w in D && Indexes(s.batches, w)
    requires UnitAt(s.batches, w).stack in s.entries && RangeOf(UnitAt(s.batches, w).id) * 256 <= 65535
    ensures WaitersOk(Wait(url, s, w, UnitAt(s.batches, w).stack, RangeOf(UnitAt(s.batches, w).id)), D - {w})
  {
    var stack := UnitAt(s.batches, w).stack;
    var range := RangeOf(UnitAt(s.batches, w).id);
    var s1 := Wait(url, s, w, stack, range);
    var e := s.entries[stack];
    var old_ws := if range in e.requests then e.requests[range] else [];
    assert s1.entries[stack].requests[range] == old_ws + [w];
    assert range in e.requests ==> WaiterListOk(s, stack, range, D);
    assert w !in old_ws;
    forall st, r | Outstanding(s1, st, r)
      ensures WaiterListOk(s1, st, r, D - {w})
    {
      if st == stack && r == range {
        var ws := old_ws + [w];
        forall k | 0 <= k < |ws|
          ensures IsPending(s1.batches, ws[k]) && ws[k] !in D - {w}
          ensures UnitAt(s1.batches, ws[k]).stack == st && RangeOf(UnitAt(s1.batches, ws[k]).id) == r
        {
          if k < |old_ws| {
            assert ws[k] == old_ws[k];
          }
        }
      } else {
        assert Outstanding(s, st, r) && s1.entries[st].requests[r] == s.entries[st].requests[r];
        assert WaiterListOk(s, st, r, D);
      }
    }
  }

  /** Every unit that waited still waits, and `w` now waits too. */
  lemma WaitCovered(url: Option<string>, s: State, D: set<Waiter>, w: Waiter)
    requires Covered(s, D) && Indexes(s.batches, w) && UnitAt(s.batches, w).stack in s.entries
    ensures Covered(Wait(url, s, w, UnitAt(s.batches, w).stack, RangeOf(UnitAt(s.batches, w).id)), D - {w})
  {
    var stack := UnitAt(s.batches, w).stack;
    var range := RangeOf(UnitAt(s.batches, w).id);
    var s1 := Wait(url, s, w, stack, range);
    var e := s.entries[stack];
    var old_ws := if range in e.requests then e.requests[range] else [];
    assert s1.entries[stack].requests[range] == old_ws + [w];
    forall b, k | 0 <= b < |s1.batches| && 0 <= k < |s1.batches[b].outcomes| && s1.batches[b].outcomes[k].None?
      ensures Indexes(s1.batches, Waiter(b, k)) && (Waiter(b, k) in D - {w} || Waiting(s1, Waiter(b, k)))
    {
      var v := Waiter(b, k);
      assert Indexes(s.batches, v) && (v in D || Waiting(s, v));
      if v != w && Waiting(s, v) {
        var u := UnitAt(s.batches, v);
        assert v in s.entries[u.stack].requests[RangeOf(u.id)];
        assert v in s1.entries[u.stack].requests[RangeOf(u.id)];
      }
    }
  }

  /** Joining adds no load; starting one adds the load together with the new waiter list. */
  lemma WaitCoalesced(url: Option<string>, s: State, w: Waiter, stack: string, range: nat)
    requires Coalesced(s) && stack in s.entries
    ensures Coalesced(Wait(url, s, w, stack, range))
  {
    var s1 := Wait(url, s, w, stack, range);
    var e := s.entries[stack];
    forall st: string, r: nat
      ensures LoadCount(s1.loads, st, r)
              == CompletionCount(s1.completions, st, r) + (if Outstanding(s1, st, r) then 1 else 0)
    {
      if range !in e.requests {
        LoadCountAppend(s.loads, Load(stack, range, url), st, r);
      }
      assert (st, r) != (stack, range) ==> (Outstanding(s1, st, r) <==> Outstanding(s, st, r));
    }
  }

  lemma WaitTinySdf(cfg: Config, url: Option<string>, s: State, w: Waiter, stack: string, range: nat)
    requires TinySdfOnce(cfg, s) && stack in s.entries
    ensures TinySdfOnce(cfg, Wait(url, s, w, stack, range))
  {
    var s1 := Wait(url, s, w, stack, range);
    forall st
      ensures StackCount(s1.sdfCreations, st) == (if HasTinySdf(s1, st) then 1 else 0)
      ensures HasTinySdf(s1, st) ==> cfg.family.Some? && s1.entries[st].tinySdf.value == MakeTinySdf(cfg.family.value, st)
    {
      assert HasTinySdf(s1, st) <==> HasTinySdf(s, st);
      assert HasTinySdf(s1, st) ==> s1.entries[st].tinySdf == s.entries[st].tinySdf;
    }
  }

  lemma WaitKeeps(cfg: Config, url: Option<string>, s: State, D: set<Waiter>, w: Waiter)
    requires Inv(cfg, s, D) && w in D && Indexes(s.batches, w)
    requires UnitAt(s.batches, w).stack in s.entries && RangeOf(UnitAt(s.batches, w).id) * 256 <= 65535
    ensures Inv(cfg, Wait(url, s, w, UnitAt(s.batches, w).stack, RangeOf(UnitAt(s.batches, w).id)), D - {w})
  {
    var stack := UnitAt(s.batches, w).stack;
    var range := RangeOf(UnitAt(s.batches, w).id);
    WaitWaiters(url, s, D, w);
    WaitCovered(url, s, D, w);
    WaitCoalesced(url, s, w, stack, range);
    WaitTinySdf(cfg, url, s, w, stack, range);
  }

  /** Resolving one unit still to be resolved preserves the invariant. */
  lemma ResolveKeeps(cfg: Config, url: Option<string>, s: State, D: set<Waiter>, w: Waiter)
    requires Inv(cfg, s, D) && w in D && Indexes(s.batches, w)
    ensures Inv(cfg, Resolve(cfg, url, s, w), D - {w})
  {
    var unit := UnitAt(s.batches, w);
    var s1 := WithEntry(s, unit.stack);
    var e := s1.entries[unit.stack];
    EnsureEntryKeeps(cfg, s, D, unit.stack);
    if unit.id in e.glyphs {
      ReportKeeps(cfg, s1, D, w, Resolved(e.glyphs[unit.id]));
    } else if Synthesizes(cfg.family, unit.id) {
      CreateTinySdfKeeps(cfg, s1, D, unit.stack);
      var s2 := WithTinySdf(cfg, s1, unit.stack);
      ReportKeeps(cfg, s2, D, w, Resolved(Some(SynthGlyph(cfg.draw, s2.entries[unit.stack].tinySdf.value, unit.id))));
    } else if RangeOf(unit.id) * 256 > 65535 {
      ReportKeeps(cfg, s1, D, w, Failed(GlyphsAbove65535));
    } else {
      WaitKeeps(cfg, url, s1, D, w);
    }
  }

  /** The units `n .. N - 1` of batch `b`, still to be resolved. */
  function Unresolved(b: nat, n: nat, N: nat): set<Waiter> {
    set k: nat | n <= k < N :: Waiter(b, k)
  }

  /** Resolving unit `k` of batch `b` keeps the invariant and exempts one unit fewer. */
  lemma ResolveNextKeeps(cfg: Config, url: Option<string>, s: State, b: nat, k: nat)
    requires b < |s.batches| && k < |s.batches[b].units| == |s.batches[b].outcomes|
    requires Inv(cfg, s, Unresolved(b, k, |s.batches[b].units|))
    ensures Inv(cfg, Resolve(cfg, url, s, Waiter(b, k)), Unresolved(b, k + 1, |s.batches[b].units|))
  {
    var N := |s.batches[b].units|;
    assert Waiter(b, k) in Unresolved(b, k, N);
    ResolveKeeps(cfg, url, s, Unresolved(b, k, N), Waiter(b, k));
    assert Unresolved(b, k, N) - {Waiter(b, k)} == Unresolved(b, k + 1, N);
  }

  lemma {:induction false} ResolveFromKeeps(cfg: Config, url: Option<string>, s: State, b: nat, k: nat)
    requires b < |s.batches| && k <= |s.batches[b].units| == |s.batches[b].outcomes|
    requires Inv(cfg, s, Unresolved(b, k, |s.batches[b].units|))
    ensures Inv(cfg, ResolveFrom(cfg, url, s, b, k), {})
    decreases |s.batches[b].units| - k
  {
    if k == |s.batches[b].units| {
      assert Unresolved(b, k, k) == {};
    } else {
      ResolveNextKeeps(cfg, url, s, b, k);
      ResolveFromKeeps(cfg, url, Resolve(cfg, url, s, Waiter(b, k)), b, k + 1);
    }
  }

  lemma NewBatchOk(units: seq<Unit>)
    ensures BatchOk(NewBatch(units))
  {
    var nb := NewBatch(units);
    if units == [] {
      assert Aggregate(nb.units, nb.outcomes) == map[];
    } else {
      assert nb.outcomes[0].None?;
    }
  }

  lemma NewBatchBatchesOk(batches: seq<Batch>, units: seq<Unit>)
    requires BatchesOk(batches)
    ensures BatchesOk(batches + [NewBatch(units)])
  {
    var r := batches + [NewBatch(units)];
    NewBatchOk(units);
    forall b | 0 <= b < |r|
      ensures BatchOk(r[b])
    {
      if b < |batches| {
        assert r[b] == batches[b];
        assert BatchOk(batches[b]);
      }
    }
  }

  /** The new batch's units are pending and none of them waits yet. */
  lemma NewBatchWaiters(s: State, units: seq<Unit>)
    requires WaitersOk(s, {})
    ensures WaitersOk(s.(batches := s.batches + [NewBatch(units)]), Unresolved(|s.batches|, 0, |units|))
  {
    var s1 := s.(batches := s.batches + [NewBatch(units)]);
    var D := Unresolved(|s.batches|, 0, |units|);
    assert forall v :: IsPending(s.batches, v) ==> IsPending(s1.batches, v) && v !in D;
    forall st, r | Outstanding(s1, st, r)
      ensures WaiterListOk(s1, st, r, D)
    {
      assert WaiterListOk(s, st, r, {});
    }
  }

  lemma NewBatchCovered(s: State, units: seq<Unit>)
    requires Covered(s, {})
    ensures Covered(s.(batches := s.batches + [NewBatch(units)]), Unresolved(|s.batches|, 0, |units|))
  {
    var s1 := s.(batches := s.batches + [NewBatch(units)]);
    var D := Unresolved(|s.batches|, 0, |units|);
    forall b, k | 0 <= b < |s1.batches| && 0 <= k < |s1.batches[b].outcomes| && s1.batches[b].outcomes[k].None?
      ensures Indexes(s1.batches, Waiter(b, k)) && (Waiter(b, k) in D || Waiting(s1, Waiter(b, k)))
    {
      if b < |s.batches| {
        assert s1.batches[b] == s.batches[b];
        assert Waiting(s, Waiter(b, k));
      } else {
        assert Waiter(b, k) in D;
      }
    }
  }

  lemma NewBatchKeeps(cfg: Config, s: State, units: seq<Unit>)
    requires Inv(cfg, s, {})
    ensures Inv(cfg, s.(batches := s.batches + [NewBatch(units)]), Unresolved(|s.batches|, 0, |units|))
  {
    NewBatchBatchesOk(s.batches, units);
    NewBatchWaiters(s, units);
    NewBatchCovered(s, units);
    BatchesOnlyKeep(cfg, s, s.batches + [NewBatch(units)]);
  }

  /** `getGlyphs` preserves the invariant. */
  lemma GetGlyphsKeeps(cfg: Config, url: Option<string>, s: State, request: seq<(string, seq<nat>)>)
    requires Inv(cfg, s, {})
    ensures Inv(cfg, GetGlyphsStep(cfg, url, s, request), {})
  {
    var units := Flatten(request);
    var s0 := s.(batches := s.batches + [NewBatch(units)]);
    NewBatchKeeps(cfg, s, units);
    ResolveFromKeeps(cfg, url, s0, |s.batches|, 0);
  }

  function WaiterSet(ws: seq<Waiter>): set<Waiter> {
    set w | w in ws
  }

  /** The waiters of the completed list are no longer waiting: they are the units still to be told. */
  lemma DetachWaiters(s: State, stack: string, range: nat, result: GlyphRange.LoadResult)
    requires WaitersOk(s, {}) && Outstanding(s, stack, range) && !result.Silent?
    ensures WaitersOk(Detached(s, stack, range, result), WaiterSet(s.entries[stack].requests[range]))
  {
    var s1 := Detached(s, stack, range, result);
    var ws := s.entries[stack].requests[range];
    var D := WaiterSet(ws);
    assert WaiterListOk(s, stack, range, {});
    forall w | w in D
      ensures IsPending(s.batches, w) && UnitAt(s.batches, w).stack == stack && RangeOf(UnitAt(s.batches, w).id) == range
    {
      var j :| 0 <= j < |ws| && ws[j] == w;
    }
    forall st, r | Outstanding(s1, st, r)
      ensures WaiterListOk(s1, st, r, D)
    {
      assert (st, r) != (stack, range);
      assert Outstanding(s, st, r) && s1.entries[st].requests[r] == s.entries[st].requests[r];
      assert WaiterListOk(s, st, r, {});
    }
  }

  lemma DetachCovered(s: State, stack: string, range: nat, result: GlyphRange.LoadResult)
    requires Covered(s, {}) && Outstanding(s, stack, range) && !result.Silent?
    ensures Covered(Detached(s, stack, range, result), WaiterSet(s.entries[stack].requests[range]))
  {
    var s1 := Detached(s, stack, range, result);
    var D := WaiterSet(s.entries[stack].requests[range]);
    forall b, k | 0 <= b < |s1.batches| && 0 <= k < |s1.batches[b].outcomes| && s1.batches[b].outcomes[k].None?
      ensures Indexes(s1.batches, Waiter(b, k)) && (Waiter(b, k) in D || Waiting(s1, Waiter(b, k)))
    {
      var v := Waiter(b, k);
      assert Waiting(s, v);
      var u := UnitAt(s.batches, v);
      if u.stack == stack && RangeOf(u.id) == range {
        assert v in D;
      } else {
        assert s1.entries[u.stack].requests[RangeOf(u.id)] == s.entries[u.stack].requests[RangeOf(u.id)];
      }
    }
  }

  /** The completion balances the load that was started for the deleted list. */
  lemma DetachCoalesced(s: State, stack: string, range: nat, result: GlyphRange.LoadResult)
    requires Coalesced(s) && Outstanding(s, stack, range) && !result.Silent?
    ensures Coalesced(Detached(s, stack, range, result))
  {
    var s1 := Detached(s, stack, range, result);
    forall st: string, r: nat
      ensures LoadCount(s1.loads, st, r)
              == CompletionCount(s1.completions, st, r) + (if Outstanding(s1, st, r) then 1 else 0)
    {
      CompletionCountAppend(s.completions, (stack, range), st, r);
      assert (st, r) != (stack, range) ==> (Outstanding(s1, st, r) <==> Outstanding(s, st, r));
    }
  }

  lemma DetachTinySdf(cfg: Config, s: State, stack: string, range: nat, result: GlyphRange.LoadResult)
    requires TinySdfOnce(cfg, s) && Outstanding(s, stack, range) && !result.Silent?
    ensures TinySdfOnce(cfg, Detached(s, stack, range, result))
  {
    var s1 := Detached(s, stack, range, result);
    forall st
      ensures StackCount(s1.sdfCreations, st) == (if HasTinySdf(s1, st) then 1 else 0)
      ensures HasTinySdf(s1, st) ==> cfg.family.Some? && s1.entries[st].tinySdf.value == MakeTinySdf(cfg.family.value, st)
    {
      assert HasTinySdf(s1, st) <==> HasTinySdf(s, st);
      assert HasTinySdf(s1, st) ==> s1.entries[st].tinySdf == s.entries[st].tinySdf;
    }
  }

  lemma DetachKeeps(cfg: Config, s: State, stack: string, range: nat, result: GlyphRange.LoadResult)
    requires Inv(cfg, s, {}) && Outstanding(s, stack, range) && !result.Silent?
    ensures Inv(cfg, Detached(s, stack, range, result), WaiterSet(s.entries[stack].requests[range]))
  {
    DetachWaiters(s, stack, range, result);
    DetachCovered(s, stack, range, result);
    DetachCoalesced(s, stack, range, result);
    DetachTinySdf(cfg, s, stack, range, result);
  }

  /** Telling waiter `k` keeps the invariant; the waiters after it are still to be told. */
  lemma NotifyNextKeeps(cfg: Config, s: State, ws: seq<Waiter>, result: GlyphRange.LoadResult, k: nat)
    requires !result.Silent? && k < |ws| && AllIndexed(s.batches, ws) && Distinct(ws)
    requires Inv(cfg, s.(batches := NotifyAll(s.batches, ws[..k], result)), WaiterSet(ws[k..]))
    ensures Inv(cfg, s.(batches := NotifyAll(s.batches, ws[..k + 1], result)), WaiterSet(ws[k + 1..]))
  {
    var x := s.(batches := NotifyAll(s.batches, ws[..k], result));
    var w := ws[k];
    WaiterSetTail(ws, k);
    ReportKeeps(cfg, x, WaiterSet(ws[k..]), w, WaiterOutcome(result, UnitAt(x.batches, w).id));
    assert ws[..k + 1][..k] == ws[..k];
  }

  /** Waiter `k` of a list without repeats leaves the waiters after it when it is told. */
  lemma WaiterSetTail(ws: seq<Waiter>, k: nat)
    requires k < |ws| && Distinct(ws)
    ensures ws[k] in WaiterSet(ws[k..])
    ensures WaiterSet(ws[k..]) - {ws[k]} == WaiterSet(ws[k + 1..])
  {
    forall j | k + 1 <= j < |ws|
      ensures ws[j] != ws[k]
    {
    }
    assert ws[k] !in ws[k + 1..];
    assert ws[k..] == [ws[k]] + ws[k + 1..];
  }

  lemma {:induction false} NotifyPrefixKeeps(cfg: Config, s: State, ws: seq<Waiter>, result: GlyphRange.LoadResult, k: nat)
    requires !result.Silent? && k <= |ws| && AllIndexed(s.batches, ws) && Distinct(ws)
    requires Inv(cfg, s, WaiterSet(ws))
    ensures Inv(cfg, s.(batches := NotifyAll(s.batches, ws[..k], result)), WaiterSet(ws[k..]))
  {
    if k == 0 {
      assert ws[..0] == [] && ws[0..] == ws;
      assert s.(batches := NotifyAll(s.batches, ws[..0], result)) == s;
    } else {
      NotifyPrefixKeeps(cfg, s, ws, result, k - 1);
      NotifyNextKeeps(cfg, s, ws, result, k - 1);
    }
  }

  /** A completed load preserves the invariant. */
  lemma CompleteKeeps(cfg: Config, s: State, stack: string, range: nat, result: GlyphRange.LoadResult)
    requires Inv(cfg, s, {}) && Outstanding(s, stack, range)
    requires AllIndexed(s.batches, s.entries[stack].requests[range])
    ensures Inv(cfg, Complete(s, stack, range, result), {})
  {
    if !result.Silent? {
      var ws := s.entries[stack].requests[range];
      var s1 := Detached(s, stack, range, result);
      assert WaiterListOk(s, stack, range, {});
      DetachKeeps(cfg, s, stack, range, result);
      NotifyPrefixKeeps(cfg, s1, ws, result, |ws|);
      assert ws[..|ws|] == ws;
      assert WaiterSet(ws[|ws|..]) == {};
    }
  }

  // ---------------------------------------------------------------------------------------
  // What one unit's resolution does

  /** The code's bound `range * 256 > 65535` rejects exactly the ids above 65535. */
  lemma RangeBoundIsIdBound(id: nat)
    ensures RangeOf(id) * 256 > 65535 <==> id > 65535
  {
    assert id / 256 * 256 <= id < id / 256 * 256 + 256;
  }

  /** A cached value (a glyph, or `null` for one the server lacked) answers at once; nothing is loaded or drawn. */
  lemma ResolveHit(cfg: Config, url: Option<string>, s: State, w: Waiter)
    requires Indexes(s.batches, w)
    requires UnitAt(s.batches, w).id in EntryOf(s.entries, UnitAt(s.batches, w).stack).glyphs
    ensures var u := UnitAt(s.batches, w); var r := Resolve(cfg, url, s, w);
            && r.batches[w.batch].outcomes[w.index] == Some(Resolved(EntryOf(s.entries, u.stack).glyphs[u.id]))
            && r.loads == s.loads && r.sdfCreations == s.sdfCreations
            && (forall st :: st in s.entries ==> st in r.entries && r.entries[st] == s.entries[st])
  {
  }

  /**
   * A CJK or Hangul id with a fallback family is drawn with the stack's rasterizer, which is
   * created on first use only; the drawn glyph is not stored in the cache, and nothing is loaded.
   */
  lemma ResolveSynthesis(cfg: Config, url: Option<string>, s: State, w: Waiter)
    requires Indexes(s.batches, w) && TinySdfOnce(cfg, s)
    requires UnitAt(s.batches, w).id !in EntryOf(s.entries, UnitAt(s.batches, w).stack).glyphs
    requires Synthesizes(cfg.family, UnitAt(s.batches, w).id)
    ensures var u := UnitAt(s.batches, w); var r := Resolve(cfg, url, s, w);
            && r.batches[w.batch].outcomes[w.index]
               == Some(Resolved(Some(SynthGlyph(cfg.draw, MakeTinySdf(cfg.family.value, u.stack), u.id))))
            && u.id !in r.entries[u.stack].glyphs
            && HasTinySdf(r, u.stack)
            && r.sdfCreations == (if HasTinySdf(s, u.stack) then s.sdfCreations else s.sdfCreations + [u.stack])
            && r.loads == s.loads
  {
    var u := UnitAt(s.batches, w);
    var s1 := WithEntry(s, u.stack);
    assert HasTinySdf(s1, u.stack) <==> HasTinySdf(s, u.stack);
  }

  /** An id above 65535 fails with the range error; nothing is loaded. */
  lemma ResolveOutOfRange(cfg: Config, url: Option<string>, s: State, w: Waiter)
    requires Indexes(s.batches, w)
    requires UnitAt(s.batches, w).id !in EntryOf(s.entries, UnitAt(s.batches, w).stack).glyphs
    requires !Synthesizes(cfg.family, UnitAt(s.batches, w).id) && UnitAt(s.batches, w).id > 65535
    ensures var r := Resolve(cfg, url, s, w);
            && r.batches[w.batch].outcomes[w.index] == Some(Failed(GlyphsAbove65535))
            && r.loads == s.loads
  {
    RangeBoundIsIdBound(UnitAt(s.batches, w).id);
  }

  /**
   * Any other id waits on its range: it joins the range's waiter list, and a load is started
   * exactly when the range had no outstanding load.
   */
  lemma ResolveWaits(cfg: Config, url: Option<string>, s: State, w: Waiter)
    requires Indexes(s.batches, w)
    requires UnitAt(s.batches, w).id !in EntryOf(s.entries, UnitAt(s.batches, w).stack).glyphs
    requires !Synthesizes(cfg.family, UnitAt(s.batches, w).id) && UnitAt(s.batches, w).id <= 65535
    ensures var u := UnitAt(s.batches, w); var r := Resolve(cfg, url, s, w);
            && r.batches == s.batches
            && Outstanding(r, u.stack, RangeOf(u.id))
            && r.entries[u.stack].requests[RangeOf(u.id)]
               == (if Outstanding(s, u.stack, RangeOf(u.id)) then s.entries[u.stack].requests[RangeOf(u.id)] else []) + [w]
            && r.loads == (if Outstanding(s, u.stack, RangeOf(u.id)) then s.loads
                           else s.loads + [Load(u.stack, RangeOf(u.id), url)])
  {
    RangeBoundIsIdBound(UnitAt(s.batches, w).id);
  }

  /**
   * The wait step as the code is written. The loader reads its hook off the receiver of the
   * call, and the manager's plain call gives it none. A range that has a waiter list just
   * gets the unit. For any other range the list is created empty; then the loader throws,
   * before the load starts and before the unit is pushed, and the exception ends `getGlyphs`.
   */
  function WaitAsWritten<R>(url: Option<string>, s: State, w: Waiter, stack: string, range: nat,
                            normalize: Option<string> -> string,
                            transform: (string, GlyphRange.ResourceType) -> R): State
    requires stack in s.entries
  {
    var e := s.entries[stack];
    if range in e.requests then s.(entries := s.entries[stack := e.(requests := e.requests[range := e.requests[range] + [w]])])
    else if GlyphRange.RequestAsWritten<R>(None, stack, range, url, normalize, transform).None? then
      s.(entries := s.entries[stack := e.(requests := e.requests[range := []])])
    else s.(entries := s.entries[stack := e.(requests := e.requests[range := [w]])],
            loads := s.loads + [Load(stack, range, url)])
  }

  /**
   * As written, the first wait on a range leaves an empty waiter list that no load will
   * complete: the range is outstanding, yet every load started for it has completed, so the
   * coalescing invariant is broken; and the unit is in no list, so it never reports.
   */
  lemma FirstWaitAsWrittenStrands<R>(url: Option<string>, s: State, w: Waiter, stack: string, range: nat,
                                     normalize: Option<string> -> string,
                                     transform: (string, GlyphRange.ResourceType) -> R)
    requires stack in s.entries && !Outstanding(s, stack, range) && Coalesced(s)
    ensures var r := WaitAsWritten(url, s, w, stack, range, normalize, transform);
            && Outstanding(r, stack, range) && r.entries[stack].requests[range] == []
            && r.loads == s.loads && r.completions == s.completions && r.batches == s.batches
            && LoadCount(r.loads, stack, range) == CompletionCount(r.completions, stack, range)
            && !Coalesced(r)
  {
    GlyphRange.PlainCallMakesNoRequest(stack, range, url, normalize, transform);
  }

  /**
   * As written, no wait ever starts a load, so a stranded range stays outstanding with no
   * load to complete it, and each later lookup of it joins its list and waits for ever.
   */
  lemma LaterWaitAsWrittenNeverLoads<R>(url: Option<string>, s: State, w: Waiter, stack: string, range: nat,
                                        normalize: Option<string> -> string,
                                        transform: (string, GlyphRange.ResourceType) -> R,
                                        stranded: string, strandedRange: nat)
    requires stack in s.entries && Outstanding(s, stranded, strandedRange)
    ensures var r := WaitAsWritten(url, s, w, stack, range, normalize, transform);
            && r.loads == s.loads && r.completions == s.completions && r.batches == s.batches
            && Outstanding(r, stranded, strandedRange)
            && (stack == stranded && range == strandedRange ==>
                  r.entries[stack].requests[range] == s.entries[stack].requests[range] + [w])
  {
    GlyphRange.PlainCallMakesNoRequest(stack, range, url, normalize, transform);
  }

  // ---------------------------------------------------------------------------------------
  // What `getGlyphs` and a completed load do

  /** `r` has every cached glyph of `s` as it was, the loads of `s` and more, and no new completion. */
  ghost predicate CacheKept(s: State, r: State) {
    && (forall st :: st in s.entries ==> st in r.entries && r.entries[st].glyphs == s.entries[st].glyphs)
    && s.loads <= r.loads && r.completions == s.completions
  }

  lemma CacheKeptTrans(s1: State, s2: State, s3: State)
    requires CacheKept(s1, s2) && CacheKept(s2, s3)
    ensures CacheKept(s1, s3)
  {
  }

  lemma WaitKeepsCache(url: Option<string>, s: State, w: Waiter, stack: string, range: nat)
    requires stack in s.entries
    ensures CacheKept(s, Wait(url, s, w, stack, range))
  {
  }

  /** A unit's resolution never changes a cached glyph, and the loads started so far stay started. */
  lemma ResolveKeepsGlyphs(cfg: Config, url: Option<string>, s: State, w: Waiter)
    requires Indexes(s.batches, w)
    ensures CacheKept(s, Resolve(cfg, url, s, w))
  {
    var u := UnitAt(s.batches, w);
    var s1 := WithEntry(s, u.stack);
    assert CacheKept(s, s1);
    if u.id in s1.entries[u.stack].glyphs {
      assert CacheKept(s1, Reported(s1, w, Resolved(s1.entries[u.stack].glyphs[u.id])));
    } else if Synthesizes(cfg.family, u.id) {
      var s2 := WithTinySdf(cfg, s1, u.stack);
      assert CacheKept(s1, s2);
      assert CacheKept(s2, Synthesized(cfg, s2, w));
      CacheKeptTrans(s1, s2, Synthesized(cfg, s2, w));
    } else if RangeOf(u.id) * 256 > 65535 {
      assert CacheKept(s1, Reported(s1, w, Failed(GlyphsAbove65535)));
    } else {
      WaitKeepsCache(url, s1, w, u.stack, RangeOf(u.id));
    }
    CacheKeptTrans(s, s1, Resolve(cfg, url, s, w));
  }

  lemma {:induction false} ResolveFromKeepsGlyphs(cfg: Config, url: Option<string>, s: State, b: nat, k: nat)
    requires b < |s.batches| && k <= |s.batches[b].units| == |s.batches[b].outcomes|
    ensures CacheKept(s, ResolveFrom(cfg, url, s, b, k))
    decreases |s.batches[b].units| - k
  {
    if k < |s.batches[b].units| {
      ResolveFromKeepsGlyphs(cfg, url, Resolve(cfg, url, s, Waiter(b, k)), b, k + 1);
      ResolveFromStepKeeps(cfg, url, s, b, k);
    } else {
      assert CacheKept(s, s);
    }
  }

  /** One more resolution in front keeps the cache if the rest of the batch does. */
  lemma ResolveFromStepKeeps(cfg: Config, url: Option<string>, s: State, b: nat, k: nat)
    requires b < |s.batches| && k < |s.batches[b].units| == |s.batches[b].outcomes|
    requires var s1 := Resolve(cfg, url, s, Waiter(b, k));
             CacheKept(s1, ResolveFrom(cfg, url, s1, b, k + 1))
    ensures CacheKept(s, ResolveFrom(cfg, url, s, b, k))
  {
    var s1 := Resolve(cfg, url, s, Waiter(b, k));
    ResolveKeepsGlyphs(cfg, url, s, Waiter(b, k));
    CacheKeptTrans(s, s1, ResolveFrom(cfg, url, s1, b, k + 1));
    assert ResolveFrom(cfg, url, s, b, k) == ResolveFrom(cfg, url, s1, b, k + 1);
  }

  /** `getGlyphs` reads the cache but never writes it; it only adds loads and the new batch. */
  lemma GetGlyphsKeepsCache(cfg: Config, url: Option<string>, s: State, request: seq<(string, seq<nat>)>)
    ensures var r := GetGlyphsStep(cfg, url, s, request);
            && (forall st :: st in s.entries ==> st in r.entries && r.entries[st].glyphs == s.entries[st].glyphs)
            && s.loads <= r.loads && r.completions == s.completions
            && |r.batches| == |s.batches| + 1 && r.batches[|s.batches|].units == Flatten(request)
  {
    var units := Flatten(request);
    var s0 := s.(batches := s.batches + [NewBatch(units)]);
    ResolveFromKeepsGlyphs(cfg, url, s0, |s.batches|, 0);
    assert CacheKept(s, s0);
    CacheKeptTrans(s, s0, GetGlyphsStep(cfg, url, s, request));
  }

  lemma WaitersIndexed(cfg: Config, s: State, stack: string, range: nat)
    requires Inv(cfg, s, {}) && Outstanding(s, stack, range)
    ensures AllIndexed(s.batches, s.entries[stack].requests[range])
    ensures Distinct(s.entries[stack].requests[range])
  {
    assert WaiterListOk(s, stack, range, {});
  }

  /** Reporting one unit leaves every other unit's outcome as it was. */
  lemma ReportElsewhere(batches: seq<Batch>, w: Waiter, o: UnitOutcome, v: Waiter)
    requires Indexes(batches, w) && Indexes(batches, v) && v != w
    ensures Report(batches, w, o)[v.batch].outcomes[v.index] == batches[v.batch].outcomes[v.index]
  {
  }

  /** Notifying a list of distinct waiters gives each the load's outcome and no other unit anything. */
  lemma {:induction false} NotifyAllOutcomes(batches: seq<Batch>, ws: seq<Waiter>, result: GlyphRange.LoadResult, v: Waiter)
    requires !result.Silent? && AllIndexed(batches, ws) && Distinct(ws) && Indexes(batches, v)
    ensures var r := NotifyAll(batches, ws, result);
            && (v in ws ==> r[v.batch].outcomes[v.index] == Some(WaiterOutcome(result, UnitAt(batches, v).id)))
            && (v !in ws ==> r[v.batch].outcomes[v.index] == batches[v.batch].outcomes[v.index])
  {
    if ws != [] {
      var init := ws[..|ws| - 1];
      var last := ws[|ws| - 1];
      assert AllIndexed(batches, init);
      assert Distinct(init);
      NotifyAllOutcomes(batches, init, result, v);
      assert v in ws <==> v in init || v == last;
      if v != last {
        ReportElsewhere(NotifyAll(batches, init, result), last, WaiterOutcome(result, UnitAt(NotifyAll(batches, init, result), last).id), v);
      } else {
        assert v !in init;
      }
    }
  }

  /**
   * A completed load tells every waiter of its range, in push order, the glyph at its id or the
   * load's error; other units are untouched. A response lands in the cache with every id of the
   * range now answered; an error leaves the cache as it was. Either way the range has no
   * outstanding load any more, so a later lookup of it loads again.
   */
  lemma CompleteEffects(cfg: Config, s: State, stack: string, range: nat, result: GlyphRange.LoadResult, v: Waiter)
    requires Inv(cfg, s, {}) && Outstanding(s, stack, range) && !result.Silent?
    requires AllIndexed(s.batches, s.entries[stack].requests[range])
    requires result.Loaded? ==> forall id: nat :: RangeOf(id) == range ==> id in result.glyphs
    requires Indexes(s.batches, v)
    ensures var ws := s.entries[stack].requests[range]; var r := Complete(s, stack, range, result);
            && (v in ws ==> r.batches[v.batch].outcomes[v.index] == Some(WaiterOutcome(result, UnitAt(s.batches, v).id)))
            && (v !in ws ==> r.batches[v.batch].outcomes[v.index] == s.batches[v.batch].outcomes[v.index])
            && !Outstanding(r, stack, range) && stack in r.entries && r.loads == s.loads
            && (result.Failed? ==> r.entries[stack].glyphs == s.entries[stack].glyphs)
            && (result.Loaded? ==> forall id: nat :: RangeOf(id) == range ==> id in r.entries[stack].glyphs)
            && (forall id :: id in s.entries[stack].glyphs ==> id in r.entries[stack].glyphs)
  {
    WaitersIndexed(cfg, s, stack, range);
    NotifyAllOutcomes(s.batches, s.entries[stack].requests[range], result, v);
  }

  /** A range's fetch always carries every id of the range, so a load's result meets that requirement. */
  lemma RangeResultCoversRange(range: nat, t: GlyphRange.Transport)
    ensures var res := GlyphRange.RangeResult(range, t);
            res.Loaded? ==> forall id: nat :: RangeOf(id) == range ==> id in res.glyphs
  {
    if GlyphRange.RangeResult(range, t).Loaded? {
      forall id: nat | RangeOf(id) == range
        ensures id in GlyphRange.RangeResult(range, t).glyphs
      {
        GlyphRange.LoadedContents(range, t.fields, id);
      }
    }
  }

  /** After a failed load, the next lookup of an uncached id in that range starts a new load. */
  lemma RetryAfterFailure(cfg: Config, url: Option<string>, s: State, stack: string, range: nat, message: string, w: Waiter)
    requires Inv(cfg, s, {}) && Outstanding(s, stack, range)
    requires AllIndexed(s.batches, s.entries[stack].requests[range])
    requires var r := Complete(s, stack, range, GlyphRange.Failed(message));
             && Indexes(r.batches, w) && UnitAt(r.batches, w) .stack == stack && RangeOf(UnitAt(r.batches, w).id) == range
             && UnitAt(r.batches, w).id !in r.entries[stack].glyphs && !Synthesizes(cfg.family, UnitAt(r.batches, w).id)
    ensures var r := Complete(s, stack, range, GlyphRange.Failed(message));
            Resolve(cfg, url, r, w).loads == s.loads + [Load(stack, range, url)]
  {
    var r := Complete(s, stack, range, GlyphRange.Failed(message));
    assert WaiterListOk(s, stack, range, {});
    ResolveWaits(cfg, url, r, w);
  }

  // ---------------------------------------------------------------------------------------
  // What a batch's callback receives

  /** The position of the last occurrence of `u` in `units`. */
  function LastIndex(units: seq<Unit>, u: Unit): (r: Option<nat>)
    ensures r.None? <==> u !in units
    ensures r.Some? ==> r.value < |units| && units[r.value] == u
                        && forall k :: r.value < k < |units| ==> units[k] != u
  {
    if units == [] then None
    else if units[|units| - 1] == u then Some(|units| - 1)
    else LastIndex(units[..|units| - 1], u)
  }

  /**
   * The grouped result has an entry for exactly the looked-up (stack, id) pairs, holding what the
   * last unit for that pair reported; its stacks are exactly the stacks looked up.
   */
  lemma AggregateLookup(units: seq<Unit>, outcomes: seq<Option<UnitOutcome>>, u: Unit)
    requires |outcomes| == |units|
    ensures var m := Aggregate(units, outcomes);
            && (u.stack in m <==> exists k :: 0 <= k < |units| && units[k].stack == u.stack)
            && (u.stack in m && u.id in m[u.stack] <==> u in units)
            && (u in units ==> m[u.stack][u.id] == GlyphOfOutcome(outcomes[LastIndex(units, u).value]))
  {
    AggregateStacks(units, outcomes, u.stack);
    AggregateKeys(units, outcomes, u);
    if u in units {
      AggregateValue(units, outcomes, u);
    }
  }

  lemma {:induction false} AggregateStacks(units: seq<Unit>, outcomes: seq<Option<UnitOutcome>>, stack: string)
    requires |outcomes| == |units|
    ensures stack in Aggregate(units, outcomes) <==> exists k :: 0 <= k < |units| && units[k].stack == stack
  {
    if units != [] {
      var n := |units| - 1;
      AggregateStacks(units[..n], outcomes[..n], stack);
      if exists k :: 0 <= k < n && units[..n][k].stack == stack {
        var k :| 0 <= k < n && units[..n][k].stack == stack;
        assert units[k].stack == stack;
      }
      if exists k :: 0 <= k < |units| && units[k].stack == stack {
        var k :| 0 <= k < |units| && units[k].stack == stack;
        if k < n {
          assert units[..n][k].stack == stack;
        }
      }
    }
  }

  lemma {:induction false} AggregateKeys(units: seq<Unit>, outcomes: seq<Option<UnitOutcome>>, u: Unit)
    requires |outcomes| == |units|
    ensures var m := Aggregate(units, outcomes);
            u.stack in m && u.id in m[u.stack] <==> u in units
  {
    if units != [] {
      var n := |units| - 1;
      AggregateKeys(units[..n], outcomes[..n], u);
      assert u in units <==> u in units[..n] || u == units[n];
    }
  }

  lemma {:induction false} AggregateValue(units: seq<Unit>, outcomes: seq<Option<UnitOutcome>>, u: Unit)
    requires |outcomes| == |units| && u in units
    ensures var m := Aggregate(units, outcomes);
            u.stack in m && u.id in m[u.stack] && m[u.stack][u.id] == GlyphOfOutcome(outcomes[LastIndex(units, u).value])
  {
    AggregateKeys(units, outcomes, u);
    var n := |units| - 1;
    if units[n] != u {
      assert u in units[..n];
      AggregateKeys(units[..n], outcomes[..n], u);
      AggregateValue(units[..n], outcomes[..n], u);
    }
  }

  lemma UnitsOfMembers(stack: string, ids: seq<nat>, u: Unit)
    ensures u in UnitsOf(stack, ids) <==> stack == u.stack && u.id in ids
  {
    var us := UnitsOf(stack, ids);
    if u in us {
      var k :| 0 <= k < |us| && us[k] == u;
    }
    if stack == u.stack && u.id in ids {
      var k :| 0 <= k < |ids| && ids[k] == u.id;
      assert us[k] == u;
    }
  }

  predicate Requests(request: seq<(string, seq<nat>)>, u: Unit) {
    exists i :: 0 <= i < |request| && request[i].0 == u.stack && u.id in request[i].1
  }

  lemma RequestsSnoc(request: seq<(string, seq<nat>)>, u: Unit)
    requires request != []
    ensures Requests(request, u) <==> Requests(request[..|request| - 1], u)
                                      || (request[|request| - 1].0 == u.stack && u.id in request[|request| - 1].1)
  {
    var n := |request| - 1;
    if Requests(request[..n], u) {
      var i :| 0 <= i < n && request[..n][i].0 == u.stack && u.id in request[..n][i].1;
      assert request[i] == request[..n][i];
    }
    if Requests(request, u) {
      var i :| 0 <= i < |request| && request[i].0 == u.stack && u.id in request[i].1;
      if i < n {
        assert request[..n][i] == request[i];
      }
    }
  }

  /** The flattened request holds exactly the pairs of the request. */
  lemma {:induction false} FlattenMembers(request: seq<(string, seq<nat>)>, u: Unit)
    ensures u in Flatten(request) <==> Requests(request, u)
  {
    if request != [] {
      var n := |request| - 1;
      FlattenMembers(request[..n], u);
      UnitsOfMembers(request[n].0, request[n].1, u);
      RequestsSnoc(request, u);
    }
  }

  /** The manager starts with no entries, no loads and no batches; that state is consistent. */
  lemma InitialInv(cfg: Config)
    ensures Inv(cfg, State(map[], [], [], [], []), {})
  {
  }

  /** The cache after the merge loop has copied the response's ids in `done`. */
  function PartlyMerged(glyphs: GlyphMap, response: GlyphMap, done: set<nat>): GlyphMap
  {
    glyphs + map id | id in response.Keys && id in done :: response[id]
  }

  lemma MergeStep(glyphs: GlyphMap, response: GlyphMap, done: set<nat>, id: nat)
    requires id in response
    ensures PartlyMerged(glyphs, response, done)[id := response[id]]
         == PartlyMerged(glyphs, response, done + {id})
  {
  }

  lemma MergeDone(glyphs: GlyphMap, response: GlyphMap)
    ensures PartlyMerged(glyphs, response, response.Keys) == glyphs + response
  {
    assert (map id | id in response.Keys && id in response.Keys :: response[id]) == response;
  }

  // ---------------------------------------------------------------------------------------
  // The manager object

  /**
   * A `GlyphManager`: the request hook and fallback family it was built with, the URL template,
   * and the per-stack entries. The started loads, the completed loads, the rasterizers created
   * and the batches of lookups are recorded beside them, so that what the pending callbacks
   * will do is part of the state.
   */
  class GlyphManager<R> {
    const transformRequestCallback: (string, GlyphRange.ResourceType) -> R
    const localIdeographFontFamily: Option<string>
    /** `TinySDF#draw`, which this model does not see. */
    const draw: (TinySdf, char) -> seq<Byte>
    /** `normalizeGlyphsURL`, which this model does not see. */
    const normalize: Option<string> -> string

    var url: Option<string>
    var entries: map<string, Entry>
    var loads: seq<Load>
    var completions: seq<(string, nat)>
    var sdfCreations: seq<string>
    var batches: seq<Batch>

    function Cfg(): Config {
      Config(localIdeographFontFamily, draw)
    }

    function Snapshot(): State
      reads this
    {
      State(entries, loads, completions, sdfCreations, batches)
    }

    ghost predicate Valid()
      reads this
    {
      Inv(Cfg(), Snapshot(), {})
    }

    /** The request a started load issues to the transport. */
    function LoadRequest(l: Load): R {
      GlyphRange.Request(l.stack, l.range, l.url, normalize, transformRequestCallback)
    }

    /**
     * A unit that waits on a range without a load starts one, and when the template holds one
     * `{fontstack}` before one `{range}`, that load hands the hook the filled-in URL.
     */
    lemma WaitRequestsFilledUrl(url: Option<string>, s: State, w: Waiter, a: string, b: string, c: string)
      requires Indexes(s.batches, w)
      requires UnitAt(s.batches, w).id !in EntryOf(s.entries, UnitAt(s.batches, w).stack).glyphs
      requires !Synthesizes(localIdeographFontFamily, UnitAt(s.batches, w).id) && UnitAt(s.batches, w).id <= 65535
      requires !Outstanding(s, UnitAt(s.batches, w).stack, RangeOf(UnitAt(s.batches, w).id))
      requires normalize(url) == a + "{fontstack}" + b + "{range}" + c
      requires GlyphRange.FindFrom(a, "{fontstack}", 0).None?
      requires GlyphRange.FindFrom(a + UnitAt(s.batches, w).stack + b, "{range}", 0).None?
      ensures var u := UnitAt(s.batches, w); var r := Resolve(Cfg(), url, s, w);
              && |r.loads| == |s.loads| + 1
              && LoadRequest(r.loads[|s.loads|])
                 == transformRequestCallback(a + u.stack + b + GlyphRange.RangeLabel(RangeOf(u.id)) + c, GlyphRange.Glyphs)
    {
      var u := UnitAt(s.batches, w);
      ResolveWaits(Cfg(), url, s, w);
      GlyphRange.RequestFillsTemplate(a, b, c, u.stack, RangeOf(u.id), url, normalize, transformRequestCallback);
    }

    constructor(transformRequestCallback: (string, GlyphRange.ResourceType) -> R,
                localIdeographFontFamily: Option<string>,
                draw: (TinySdf, char) -> seq<Byte>, normalize: Option<string> -> string)
      ensures this.transformRequestCallback == transformRequestCallback
      ensures this.localIdeographFontFamily == localIdeographFontFamily
      ensures this.draw == draw && this.normalize == normalize
      ensures url.None? && Snapshot() == State(map[], [], [], [], [])
      ensures Valid()
    {
      this.transformRequestCallback := transformRequestCallback;
      this.localIdeographFontFamily := localIdeographFontFamily;
      this.draw := draw;
      this.normalize := normalize;
      url := None;
      entries := map[];
      loads := [];
      completions := [];
      sdfCreations := [];
      batches := [];
      new;
      InitialInv(Cfg());
    }

    method SetURL(url: Option<string>)
      modifies this
      ensures this.url == url && Snapshot() == old(Snapshot())
    {
      this.url := url;
    }

    /**
     * `getGlyphs`: the units of the request form batch `b`, each resolved in turn; what
     * cannot be answered now waits on a load.
     */
    method GetGlyphs(request: seq<(string, seq<nat>)>) returns (b: nat)
      requires Valid()
      modifies this
      ensures b == |old(batches)| && url == old(url)
      ensures Snapshot() == GetGlyphsStep(Cfg(), url, old(Snapshot()), request)
      ensures Valid()
    {
      var all := FlattenRequest(request);
      b := |batches|;
      batches := batches + [NewBatch(all)];
      ResolveBatch(b);
      GetGlyphsKeeps(Cfg(), url, old(Snapshot()), request);
    }

    /** The asyncAll of `getGlyphs`: the units of batch `b` resolved one after the other. */
    method ResolveBatch(b: nat)
      requires b < |batches| && |batches[b].units| == |batches[b].outcomes|
      modifies this
      ensures url == old(url)
      ensures Snapshot() == ResolveFrom(Cfg(), url, old(Snapshot()), b, 0)
    {
      var n := |batches[b].units|;
      var i := 0;
      while i < n
        invariant 0 <= i <= n && url == old(url)
        invariant b < |batches| && |batches[b].units| == |batches[b].outcomes| == n
        invariant ResolveFrom(Cfg(), url, Snapshot(), b, i) == ResolveFrom(Cfg(), url, old(Snapshot()), b, 0)
      {
        ResolveUnit(Waiter(b, i));
        i := i + 1;
      }
    }

    /** The loop that lists a request's units: stack by stack, each stack's ids in order. */
    static method FlattenRequest(request: seq<(string, seq<nat>)>) returns (all: seq<Unit>)
      ensures all == Flatten(request)
    {
      all := [];
      for i := 0 to |request|
        invariant all == Flatten(request[..i])
      {
        var (stack, ids) := request[i];
        ghost var before := all;
        for j := 0 to |ids|
          invariant all == before + UnitsOf(stack, ids[..j])
        {
          assert UnitsOf(stack, ids[..j + 1]) == UnitsOf(stack, ids[..j]) + [Unit(stack, ids[j])];
          all := all + [Unit(stack, ids[j])];
        }
        assert ids[..|ids|] == ids;
        assert request[..i + 1][..i] == request[..i];
      }
      assert request[..|request|] == request;
    }

    /** The resolver asyncAll runs for one unit. */
    method ResolveUnit(w: Waiter)
      requires Indexes(batches, w)
      modifies this
      ensures url == old(url)
      ensures Snapshot() == Resolve(Cfg(), url, old(Snapshot()), w)
    {
      var unit := batches[w.batch].units[w.index];
      var stack, id := unit.stack, unit.id;
      EnsureEntry(stack);
      var entry := entries[stack];
      if id in entry.glyphs {
        ReportUnit(w, Resolved(entry.glyphs[id]));
        return;
      }
      var glyph := TinySDF(stack, id);
      if glyph.Some? {
        ReportUnit(w, Resolved(glyph));
        return;
      }
      var range := id / 256;
      if range * 256 > 65535 {
        ReportUnit(w, Failed(GlyphsAbove65535));
        return;
      }
      WaitOn(w, stack, range);
    }

    /** The stack's entry is created empty on first reference. */
    method EnsureEntry(stack: string)
      modifies this
      ensures url == old(url)
      ensures Snapshot() == WithEntry(old(Snapshot()), stack)
    {
      if stack !in entries {
        entries := entries[stack := EmptyEntry];
      }
    }

    /** The unit joins its range's waiters; the first waiter of a range starts its load. */
    method WaitOn(w: Waiter, stack: string, range: nat)
      requires stack in entries
      modifies this
      ensures url == old(url)
      ensures Snapshot() == Wait(url, old(Snapshot()), w, stack, range)
    {
      var entry := entries[stack];
      if range !in entry.requests {
        assert [] + [w] == [w];
        assert entry.requests[range := []][range := [w]] == entry.requests[range := [w]];
        entry := entry.(requests := entry.requests[range := []]);
        loads := loads + [Load(stack, range, url)];
      }
      entries := entries[stack := entry.(requests := entry.requests[range := entry.requests[range] + [w]])];
    }

    /** `_tinySDF`: a drawn glyph for a CJK or Hangul id when a fallback family is set, creating the stack's rasterizer on first use. */
    method TinySDF(stack: string, id: nat) returns (glyph: Option<StyleGlyph>)
      requires stack in entries
      modifies this
      ensures url == old(url)
      ensures glyph.Some? <==> Synthesizes(localIdeographFontFamily, id)
      ensures glyph.None? ==> Snapshot() == old(Snapshot())
      ensures glyph.Some? ==> && Snapshot() == WithTinySdf(Cfg(), old(Snapshot()), stack)
                              && glyph.value == SynthGlyph(draw, entries[stack].tinySdf.value, id)
    {
      var family := localIdeographFontFamily;
      if family.None? || family.value == "" {
        return None;
      }
      if !IsCjkUnifiedIdeograph(id) && !IsHangulSyllable(id) {
        return None;
      }
      var entry := entries[stack];
      if entry.tinySdf.None? {
        var fontWeight := "400";
        if ContainsIgnoringCase(stack, "bold", 0) {
          fontWeight := "900";
        } else if ContainsIgnoringCase(stack, "medium", 0) {
          fontWeight := "500";
        } else if ContainsIgnoringCase(stack, "light", 0) {
          fontWeight := "200";
        }
        entry := entry.(tinySdf := Some(TinySdf(24, 3, 8, 0.25, family.value, fontWeight)));
        entries := entries[stack := entry];
        sdfCreations := sdfCreations + [stack];
      }
      glyph := Some(GlyphRange.StyleGlyph(Some(id), Some(draw(entry.tinySdf.value, id as char)),
                                          GlyphRange.Metrics(Some(24), Some(24), Some(0), Some(-8), Some(24))));
    }

    /** asyncAll's per-unit callback: store the outcome, and fire the batch callback once all have reported. */
    method ReportUnit(w: Waiter, o: UnitOutcome)
      requires Indexes(batches, w)
      modifies this
      ensures url == old(url)
      ensures Snapshot() == Reported(old(Snapshot()), w, o)
    {
      var b := batches[w.batch];
      var b1 := b.(outcomes := b.outcomes[w.index := Some(o)],
                   lastError := if o.Failed? then Some(o.error) else b.lastError);
      if AllSettled(b1) {
        var delivered;
        if b1.lastError.Some? {
          delivered := Failure(b1.lastError.value);
        } else {
          var glyphs := AggregateGlyphs(b1.units, b1.outcomes);
          delivered := Success(glyphs);
        }
        b1 := b1.(delivered := Some(delivered));
      }
      batches := batches[w.batch := b1];
    }

    /** The batch callback's loop that groups the units' glyphs by stack. */
    static method AggregateGlyphs(units: seq<Unit>, outcomes: seq<Option<UnitOutcome>>) returns (result: map<string, GlyphMap>)
      requires |outcomes| == |units|
      ensures result == Aggregate(units, outcomes)
    {
      result := map[];
      for i := 0 to |units|
        invariant result == Aggregate(units[..i], outcomes[..i])
      {
        assert units[..i + 1][..i] == units[..i] && outcomes[..i + 1][..i] == outcomes[..i];
        var u := units[i];
        var inner := if u.stack in result then result[u.stack] else map[];
        result := result[u.stack := inner[u.id := GlyphOfOutcome(outcomes[i])]];
      }
      assert units[..|units|] == units && outcomes[..|units|] == outcomes;
    }

    /** The load callback's loop that copies every id of the response into the cache. */
    static method MergeGlyphs(glyphs: GlyphMap, response: GlyphMap) returns (r: GlyphMap)
      ensures r == glyphs + response
    {
      r := glyphs;
      var todo := response.Keys;
      ghost var done: set<nat> := {};
      assert PartlyMerged(glyphs, response, done) == glyphs;
      while todo != {}
        invariant todo + done == response.Keys && todo !! done
        invariant r == PartlyMerged(glyphs, response, done)
        decreases todo
      {
        var id :| id in todo;
        MergeStep(glyphs, response, done, id);
        r := r[id := response[id]];
        todo := todo - {id};
        done := done + {id};
      }
      MergeDone(glyphs, response);
    }

    /** The load callback's loop that calls each waiter, in push order, with the load's result. */
    method NotifyWaiters(requests: seq<Waiter>, result: GlyphRange.LoadResult)
      requires !result.Silent? && AllIndexed(batches, requests)
      modifies this
      ensures url == old(url)
      ensures Snapshot() == old(Snapshot()).(batches := NotifyAll(old(batches), requests, result))
    {
      for i := 0 to |requests|
        invariant url == old(url)
        invariant Snapshot() == old(Snapshot()).(batches := NotifyAll(old(batches), requests[..i], result))
      {
        assert requests[..i + 1][..i] == requests[..i];
        var w := requests[i];
        ReportUnit(w, WaiterOutcome(result, batches[w.batch].units[w.index].id));
      }
      assert requests[..|requests|] == requests;
    }

    /**
     * The transport's callback for the outstanding load of (stack, range): the response is
     * decoded and merged into the cache, every waiter is called in push order, and the
     * waiter list is deleted.
     */
    method CompleteLoad(stack: string, range: nat, t: GlyphRange.Transport)
      requires Valid() && Outstanding(Snapshot(), stack, range)
      modifies this
      ensures url == old(url)
      ensures Snapshot() == Complete(old(Snapshot()), stack, range, GlyphRange.RangeResult(range, t))
      ensures Valid()
    {
      WaitersIndexed(Cfg(), Snapshot(), stack, range);
      CompleteKeeps(Cfg(), Snapshot(), stack, range, GlyphRange.RangeResult(range, t));
      var result := GlyphRange.HandleResponse(range, t);
      if !result.Silent? {
        Settle(stack, range, result);
      }
    }

    /** The body of the load callback once the transport has answered. */
    method Settle(stack: string, range: nat, result: GlyphRange.LoadResult)
      requires Outstanding(Snapshot(), stack, range) && !result.Silent?
      requires AllIndexed(batches, entries[stack].requests[range])
      modifies this
      ensures url == old(url)
      ensures Snapshot() == Complete(old(Snapshot()), stack, range, result)
    {
      var requests := entries[stack].requests[range];
      ghost var e := entries[stack];
      ghost var glyphs := if result.Loaded? then e.glyphs + result.glyphs else e.glyphs;
      if result.Loaded? {
        MergeResponse(stack, result.glyphs);
      }
      assert entries == old(entries)[stack := e.(glyphs := glyphs)];
      NotifyWaiters(requests, result);
      Detach(stack, range);
      assert entries == old(entries)[stack := e.(glyphs := glyphs, requests := e.requests - {range})];
    }

    /** The response's glyphs are copied into the stack's cache. */
    method MergeResponse(stack: string, response: GlyphMap)
      requires stack in entries
      modifies this
      ensures url == old(url)
      ensures Snapshot() == old(Snapshot()).(entries := old(entries)[stack := old(entries)[stack].(glyphs := old(entries)[stack].glyphs + response)])
    {
      var entry := entries[stack];
      var glyphs := MergeGlyphs(entry.glyphs, response);
      entries := entries[stack := entry.(glyphs := glyphs)];
    }

    /** The range's waiter list is deleted, and the completion recorded. */
    method Detach(stack: string, range: nat)
      requires stack in entries
      modifies this
      ensures url == old(url)
      ensures Snapshot() == old(Snapshot()).(entries := old(entries)[stack := old(entries)[stack].(requests := old(entries)[stack].requests - {range})],
                                             completions := old(completions) + [(stack, range)])
    {
      var entry := entries[stack];
      entries := entries[stack := entry.(requests := entry.requests - {range})];
      completions := completions + [(stack, range)];
    }
  }
}
