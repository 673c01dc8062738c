/**
 * Loading one 256-codepoint range of glyph data for a font stack: the URL of the range,
 * the pre-filled result map, and the tag-dispatched decode of the range payload.
 *
 * The payload is a Protocol Buffers message. Its byte framing (varints, length prefixes)
 * belongs to the `pbf` reader and is not part of this model; the payload arrives here as the
 * sequence of fields that reader yields, each a tag with a varint, a byte string or a
 * nested message.
 */
module GlyphRange {
  import opened Common

  datatype WireValue = Varint(n: nat) | Bytes(bytes: seq<Byte>) | Message(fields: seq<Field>)
  datatype Field = Field(tag: nat, value: WireValue)

  /** The metrics record of a glyph; a field the payload never set stays absent. */
  datatype Metrics = Metrics(width: Option<nat>, height: Option<nat>, left: Option<int>,
                             top: Option<int>, advance: Option<nat>)

  datatype StyleGlyph = StyleGlyph(id: Option<nat>, bitmap: Option<seq<Byte>>, metrics: Metrics)

  /** Decoded glyphs keyed by codepoint; `None` is the `null` of a codepoint missing from the range. */
  type GlyphMap = map<nat, Option<StyleGlyph>>

  /** The resource kind handed to the request-transform hook. */
  datatype ResourceType = Glyphs

  /** What the transport delivers for a request: an error, nothing, or the payload's fields. */
  datatype Transport = TransportError(message: string) | NoResponse | Response(fields: seq<Field>)

  /**
   * What the loader's callback receives: the glyph map, or the transport error. `Silent`: the
   * callback is never invoked, because the transport reported neither an error nor a response,
   * or because the payload is taken as unreadable (a field with a wire type other than the
   * one its property takes; the reader itself is not part of this model).
   */
  datatype LoadResult = Loaded(glyphs: GlyphMap) | Failed(message: string) | Silent

  // ---------------------------------------------------------------------------------------
  // Range bounds and URL

  /** `begin = range * 256` and `end = begin + 255`: exactly the codepoints whose range is `range`. */
  function RangeBounds(range: nat): (bounds: (nat, nat))
    ensures bounds.1 == bounds.0 + 255
    ensures forall id: nat :: bounds.0 <= id <= bounds.1 <==> id / 256 == range
  {
    (range * 256, range * 256 + 255)
  }

  /** The `${begin}-${end}` text substituted for `{range}`. */
  function RangeLabel(range: nat): string {
    Decimal(RangeBounds(range).0) + "-" + Decimal(RangeBounds(range).1)
  }

  /** A range label is the digits of `begin`, a `-`, then the digits of `end`. */
  lemma RangeLabelShape(range: nat)
    ensures var b := Decimal(RangeBounds(range).0);
            && RangeLabel(range)[..|b|] == b && RangeLabel(range)[|b|] == '-'
            && forall k :: 0 <= k < |b| ==> RangeLabel(range)[k] != '-'
  {
    var b := Decimal(RangeBounds(range).0);
    forall k | 0 <= k < |b|
      ensures RangeLabel(range)[k] != '-'
    {
      assert RangeLabel(range)[k] == b[k];
      assert IsDigit(b[k]);
    }
  }

  /** Different ranges have different labels, so every range has its own URL. */
  lemma RangeLabelInjective(r1: nat, r2: nat)
    ensures RangeLabel(r1) == RangeLabel(r2) ==> r1 == r2
  {
    if RangeLabel(r1) == RangeLabel(r2) {
      RangeLabelShape(r1);
      RangeLabelShape(r2);
      var b1 := Decimal(RangeBounds(r1).0);
      var b2 := Decimal(RangeBounds(r2).0);
      assert |b1| == |b2|;
      assert b1 == b2;
      DecimalInjective(RangeBounds(r1).0, RangeBounds(r2).0);
    }
  }

  predicate OccursAt(s: string, pat: string, i: nat) {
    i + |pat| <= |s| && s[i..i + |pat|] == pat
  }

  /** The first position at or after `from` where `pat` occurs in `s`. */
  function FindFrom(s: string, pat: string, from: nat): (r: Option<nat>)
    requires from <= |s|
    ensures r.Some? ==> from <= r.value && OccursAt(s, pat, r.value)
    ensures r.Some? ==> forall j :: from <= j < r.value ==> !OccursAt(s, pat, j)
    ensures r.None? ==> forall j :: from <= j <= |s| ==> !OccursAt(s, pat, j)
    decreases |s| - from
  {
    if OccursAt(s, pat, from) then Some(from)
    else if from == |s| then None
    else FindFrom(s, pat, from + 1)
  }

  /** `s.replace(pat, rep)` for a string pattern: only the first occurrence is replaced. */
  function ReplaceFirst(s: string, pat: string, rep: string): (r: string)
    ensures FindFrom(s, pat, 0).None? ==> r == s
    ensures FindFrom(s, pat, 0).Some? ==>
              exists i :: 0 <= i && OccursAt(s, pat, i) && (forall j :: 0 <= j < i ==> !OccursAt(s, pat, j))
                          && r == s[..i] + rep + s[i + |pat|..]
  {
    match FindFrom(s, pat, 0)
    case None => s
    case Some(i) => s[..i] + rep + s[i + |pat|..]
  }

  /** The URL of one range: the first `{fontstack}`, then the first `{range}`, of the normalised template. */
  function GlyphUrl(normalizedTemplate: string, fontstack: string, range: nat): string {
    ReplaceFirst(ReplaceFirst(normalizedTemplate, "{fontstack}", fontstack), "{range}", RangeLabel(range))
  }

  /**
   * The request the loader issues: the normalised template with its placeholders substituted,
   * passed with the `Glyphs` resource type through the request-transform hook. Both the URL
   * normaliser and the hook are functions this model does not see.
   */
  function Request<R>(fontstack: string, range: nat, urlTemplate: Option<string>,
                      normalize: Option<string> -> string,
                      transform: (string, ResourceType) -> R): R
  {
    transform(GlyphUrl(normalize(urlTemplate), fontstack, range), Glyphs)
  }

  /** A template with one placeholder of each kind, fontstack first, gets both filled in place. */
  lemma GlyphUrlFills(a: string, b: string, c: string, fontstack: string, range: nat)
    requires FindFrom(a, "{fontstack}", 0).None? && FindFrom(a + fontstack + b, "{range}", 0).None?
    ensures GlyphUrl(a + "{fontstack}" + b + "{range}" + c, fontstack, range)
            == a + fontstack + b + RangeLabel(range) + c
  {
    Regroup(a, "{fontstack}", b, "{range}", c);
    FillFontstack(a, b + "{range}" + c, fontstack);
    Regroup(a, fontstack, b, "{range}", c);
    FillRange(a + fontstack + b, c, range);
  }

  /**
   * The loader's request as the code reads the hook: from the receiver of the call, `this`,
   * rather than from its `transformRequestCallback` parameter. `receiverHook` is that
   * receiver's property, `None` when the receiver has none; calling it then throws a
   * `TypeError` and no request is made.
   */
  function RequestAsWritten<R>(receiverHook: Option<(string, ResourceType) -> R>,
                               fontstack: string, range: nat, urlTemplate: Option<string>,
                               normalize: Option<string> -> string,
                               transform: (string, ResourceType) -> R): Option<R>
  {
    if receiverHook.None? then None
    else Some(receiverHook.value(GlyphUrl(normalize(urlTemplate), fontstack, range), Glyphs))
  }

  /**
   * The manager calls the loader as a plain function, so its receiver carries no hook: as
   * written, no request is made for any stack, range or hook. Whatever the receiver, the hook
   * passed as the parameter never affects the outcome.
   */
  lemma PlainCallMakesNoRequest<R>(fontstack: string, range: nat, urlTemplate: Option<string>,
                                   normalize: Option<string> -> string,
                                   transform: (string, ResourceType) -> R)
    ensures RequestAsWritten(None, fontstack, range, urlTemplate, normalize, transform).None?
    ensures forall receiverHook: Option<(string, ResourceType) -> R>, other: (string, ResourceType) -> R ::
              RequestAsWritten(receiverHook, fontstack, range, urlTemplate, normalize, transform)
              == RequestAsWritten(receiverHook, fontstack, range, urlTemplate, normalize, other)
  {
  }

  /** The hook passed in receives the template with the stack and the range label in place. */
  lemma RequestFillsTemplate<R>(a: string, b: string, c: string, fontstack: string, range: nat,
                                urlTemplate: Option<string>, normalize: Option<string> -> string,
                                transform: (string, ResourceType) -> R)
    requires normalize(urlTemplate) == a + "{fontstack}" + b + "{range}" + c
    requires FindFrom(a, "{fontstack}", 0).None? && FindFrom(a + fontstack + b, "{range}", 0).None?
    ensures Request(fontstack, range, urlTemplate, normalize, transform)
            == transform(a + fontstack + b + RangeLabel(range) + c, Glyphs)
  {
    GlyphUrlFills(a, b, c, fontstack, range);
  }

  lemma Regroup(x1: string, x2: string, x3: string, x4: string, x5: string)
    ensures x1 + x2 + x3 + x4 + x5 == x1 + x2 + (x3 + x4 + x5)
  {
  }

  lemma FillFontstack(a: string, rest: string, fontstack: string)
    requires FindFrom(a, "{fontstack}", 0).None?
    ensures ReplaceFirst(a + "{fontstack}" + rest, "{fontstack}", fontstack) == a + fontstack + rest
  {
    PlaceholdersOpenOnce();
    ReplaceAfter(a, "{fontstack}", rest, fontstack);
  }

  lemma FillRange(a: string, c: string, range: nat)
    requires FindFrom(a, "{range}", 0).None?
    ensures ReplaceFirst(a + "{range}" + c, "{range}", RangeLabel(range)) == a + RangeLabel(range) + c
  {
    PlaceholdersOpenOnce();
    ReplaceAfter(a, "{range}", c, RangeLabel(range));
  }

  /** Both placeholders open with their only `{`. */
  lemma PlaceholdersOpenOnce()
    ensures forall k :: 0 < k < |"{fontstack}"| ==> "{fontstack}"[k] != "{fontstack}"[0]
    ensures forall k :: 0 < k < |"{range}"| ==> "{range}"[k] != "{range}"[0]
  {
    assert "{fontstack}" == ['{', 'f', 'o', 'n', 't', 's', 't', 'a', 'c', 'k', '}'];
    assert "{range}" == ['{', 'r', 'a', 'n', 'g', 'e', '}'];
  }

  /** Replacing the first occurrence of `pat` when it follows a prefix free of it. */
  lemma ReplaceAfter(p: string, pat: string, rest: string, rep: string)
    requires |pat| > 0 && forall k :: 0 < k < |pat| ==> pat[k] != pat[0]
    requires FindFrom(p, pat, 0).None?
    ensures ReplaceFirst(p + pat + rest, pat, rep) == p + rep + rest
  {
    var s := p + pat + rest;
    assert s[..|p|] == p && s[|p|..|p| + |pat|] == pat;
    FirstOccurrence(s, pat, p);
    assert s[|p| + |pat|..] == rest;
  }

  /**
   * If `pat` starts right after a prefix `p` in which it does not occur, that is its first
   * occurrence, provided the first character of `pat` does not recur in it (true of both
   * placeholders, which open with their only `{`): then no earlier occurrence can overlap it.
   */
  lemma FirstOccurrence(s: string, pat: string, p: string)
    requires |pat| > 0 && forall k :: 0 < k < |pat| ==> pat[k] != pat[0]
    requires |p| + |pat| <= |s| && s[..|p|] == p && s[|p|..|p| + |pat|] == pat
    requires FindFrom(p, pat, 0).None?
    ensures FindFrom(s, pat, 0) == Some(|p|)
  {
    assert OccursAt(s, pat, |p|);
    forall j | 0 <= j < |p|
      ensures !OccursAt(s, pat, j)
    {
      NoOccurrenceBefore(s, pat, p, j);
    }
  }

  lemma NoOccurrenceBefore(s: string, pat: string, p: string, j: nat)
    requires |pat| > 0 && forall k :: 0 < k < |pat| ==> pat[k] != pat[0]
    requires |p| + |pat| <= |s| && s[..|p|] == p && s[|p|..|p| + |pat|] == pat
    requires FindFrom(p, pat, 0).None? && j < |p|
    ensures !OccursAt(s, pat, j)
  {
    if j + |pat| <= |p| {
      assert !OccursAt(p, pat, j);
      NoOccurrenceInside(s, pat, p, j);
    } else if j + |pat| <= |s| {
      NoOccurrenceAcross(s, pat, p, j);
    }
  }

  /** An occurrence inside the prefix would be one of the prefix. */
  lemma NoOccurrenceInside(s: string, pat: string, p: string, j: nat)
    requires |p| <= |s| && s[..|p|] == p
    requires j + |pat| <= |p| && !OccursAt(p, pat, j)
    ensures !OccursAt(s, pat, j)
  {
    forall i | j <= i < j + |pat|
      ensures s[i] == p[i]
    {
      assert s[i] == s[..|p|][i];
    }
    assert s[j..j + |pat|] == p[j..j + |pat|];
  }

  /** An occurrence overlapping the one at `|p|` would repeat the first character of `pat`. */
  lemma NoOccurrenceAcross(s: string, pat: string, p: string, j: nat)
    requires |pat| > 0 && forall k :: 0 < k < |pat| ==> pat[k] != pat[0]
    requires |p| + |pat| <= |s| && s[|p|..|p| + |pat|] == pat
    requires j < |p| < j + |pat| <= |s|
    ensures !OccursAt(s, pat, j)
  {
    assert s[j..j + |pat|][|p| - j] == s[|p|] == pat[0];
    assert pat[|p| - j] != pat[0];
  }

  // ---------------------------------------------------------------------------------------
  // Glyph records

  /** `readSVarint`: the zig-zag mapping of Protocol Buffers signed integers (0, -1, 1, -2, ...). */
  function ZigZagDecode(n: nat): int {
    if n % 2 == 0 then n / 2 else -((n + 1) / 2)
  }

  function ZigZagEncode(v: int): nat {
    if v >= 0 then 2 * v else -2 * v - 1
  }

  lemma ZigZagRoundTrip(v: int)
    ensures ZigZagDecode(ZigZagEncode(v)) == v
  {
  }

  lemma ZigZagOnto(n: nat)
    ensures ZigZagEncode(ZigZagDecode(n)) == n
  {
  }

  function MapZigZag(o: Option<nat>): Option<int> {
    match o
    case None => None
    case Some(n) => Some(ZigZagDecode(n))
  }

  /** Tags of a glyph record read with `readVarint`/`readSVarint`, and the one read with `readBytes`. */
  predicate IsVarintGlyphTag(tag: nat) { tag == 1 || 3 <= tag <= 7 }

  /**
   * A glyph field of the wire type `readGlyph` asks for: a varint for the numeric tags, a
   * byte string for the bitmap. Fields with other tags are skipped whatever they hold. Any
   * other field makes the payload count as unreadable, a modelling choice.
   */
  predicate GlyphFieldReadable(f: Field) {
    && (IsVarintGlyphTag(f.tag) ==> f.value.Varint?)
    && (f.tag == 2 ==> f.value.Bytes?)
  }

  predicate GlyphFieldsReadable(fields: seq<Field>) {
    forall i :: 0 <= i < |fields| ==> GlyphFieldReadable(fields[i])
  }

  /** The value of the last varint field with `tag`, if any: a repeated field overwrites. */
  function LastVarint(fields: seq<Field>, tag: nat): Option<nat> {
    if fields == [] then None
    else
      var last := fields[|fields| - 1];
      if last.tag == tag && last.value.Varint? then Some(last.value.n)
      else LastVarint(fields[..|fields| - 1], tag)
  }

  /** The bytes of the last byte-string field with `tag`, if any. */
  function LastBytes(fields: seq<Field>, tag: nat): Option<seq<Byte>> {
    if fields == [] then None
    else
      var last := fields[|fields| - 1];
      if last.tag == tag && last.value.Bytes? then Some(last.value.bytes)
      else LastBytes(fields[..|fields| - 1], tag)
  }

  /** Field `i` is a varint field with the tag. */
  predicate VarintAt(fields: seq<Field>, i: nat, tag: nat)
    requires i < |fields|
  {
    fields[i].tag == tag && fields[i].value.Varint?
  }

  /** `LastVarint` finds a varint field with the tag exactly when there is one. */
  lemma {:induction false} LastVarintFound(fields: seq<Field>, tag: nat)
    ensures LastVarint(fields, tag).Some? <==> exists i :: 0 <= i < |fields| && VarintAt(fields, i, tag)
    decreases |fields|
  {
    if fields != [] {
      var init := fields[..|fields| - 1];
      LastVarintFound(init, tag);
      if VarintAt(fields, |fields| - 1, tag) {
      } else {
        forall i | 0 <= i < |init|
          ensures VarintAt(init, i, tag) == VarintAt(fields, i, tag)
        {
          assert init[i] == fields[i];
        }
      }
    }
  }

  /** What `LastVarint` finds is the value of a varint field with the tag that no later one follows. */
  lemma {:induction false} LastVarintLatest(fields: seq<Field>, tag: nat)
    requires LastVarint(fields, tag).Some?
    ensures exists i :: && 0 <= i < |fields| && fields[i] == Field(tag, Varint(LastVarint(fields, tag).value))
                        && forall j :: i < j < |fields| ==> !VarintAt(fields, j, tag)
    decreases |fields|
  {
    var init := fields[..|fields| - 1];
    if VarintAt(fields, |fields| - 1, tag) {
      assert fields[|fields| - 1] == Field(tag, Varint(LastVarint(fields, tag).value));
    } else {
      LastVarintLatest(init, tag);
      var i :| && 0 <= i < |init| && init[i] == Field(tag, Varint(LastVarint(init, tag).value))
               && forall j :: i < j < |init| ==> !VarintAt(init, j, tag);
      assert fields[i] == init[i];
      forall j | i < j < |fields|
        ensures !VarintAt(fields, j, tag)
      {
        if j < |init| {
          assert init[j] == fields[j];
          assert !VarintAt(init, j, tag);
        }
      }
    }
  }

  /** Field `i` is a byte-string field with the tag. */
  predicate BytesAt(fields: seq<Field>, i: nat, tag: nat)
    requires i < |fields|
  {
    fields[i].tag == tag && fields[i].value.Bytes?
  }

  /** `LastBytes` finds a byte-string field with the tag exactly when there is one. */
  lemma {:induction false} LastBytesFound(fields: seq<Field>, tag: nat)
    ensures LastBytes(fields, tag).Some? <==> exists i :: 0 <= i < |fields| && BytesAt(fields, i, tag)
    decreases |fields|
  {
    if fields != [] {
      var init := fields[..|fields| - 1];
      LastBytesFound(init, tag);
      if BytesAt(fields, |fields| - 1, tag) {
      } else {
        forall i | 0 <= i < |init|
          ensures BytesAt(init, i, tag) == BytesAt(fields, i, tag)
        {
          assert init[i] == fields[i];
        }
      }
    }
  }

  /** What `LastBytes` finds is the value of a byte-string field with the tag that no later one follows. */
  lemma {:induction false} LastBytesLatest(fields: seq<Field>, tag: nat)
    requires LastBytes(fields, tag).Some?
    ensures exists i :: && 0 <= i < |fields| && fields[i] == Field(tag, Bytes(LastBytes(fields, tag).value))
                        && forall j :: i < j < |fields| ==> !BytesAt(fields, j, tag)
    decreases |fields|
  {
    var init := fields[..|fields| - 1];
    if BytesAt(fields, |fields| - 1, tag) {
      assert fields[|fields| - 1] == Field(tag, Bytes(LastBytes(fields, tag).value));
    } else {
      LastBytesLatest(init, tag);
      var i :| && 0 <= i < |init| && init[i] == Field(tag, Bytes(LastBytes(init, tag).value))
               && forall j :: i < j < |init| ==> !BytesAt(init, j, tag);
      assert fields[i] == init[i];
      forall j | i < j < |fields|
        ensures !BytesAt(fields, j, tag)
      {
        if j < |init| {
          assert init[j] == fields[j];
          assert !BytesAt(init, j, tag);
        }
      }
    }
  }


  /**
   * The glyph record the fields describe: tag 1 the id, 2 the bitmap, 3 width, 4 height,
   * 5 left and 6 top (both zig-zag signed), 7 advance; each from the last field with that tag.
   */
  function GlyphOf(fields: seq<Field>): (g: StyleGlyph)
    ensures g.id.Some? <==> exists i :: 0 <= i < |fields| && VarintAt(fields, i, 1)
    ensures g.bitmap.Some? <==> exists i :: 0 <= i < |fields| && BytesAt(fields, i, 2)
  {
    LastVarintFound(fields, 1);
    LastBytesFound(fields, 2);
    StyleGlyph(LastVarint(fields, 1), LastBytes(fields, 2),
               Metrics(LastVarint(fields, 3), LastVarint(fields, 4), MapZigZag(LastVarint(fields, 5)),
                       MapZigZag(LastVarint(fields, 6)), LastVarint(fields, 7)))
  }

  /** One step of `readGlyph`: the record after one more field. */
  function ApplyGlyphField(g: StyleGlyph, f: Field): StyleGlyph
    requires GlyphFieldReadable(f)
  {
    var m := g.metrics;
    if f.tag == 1 then g.(id := Some(f.value.n))
    else if f.tag == 2 then g.(bitmap := Some(f.value.bytes))
    else if f.tag == 3 then g.(metrics := m.(width := Some(f.value.n)))
    else if f.tag == 4 then g.(metrics := m.(height := Some(f.value.n)))
    else if f.tag == 5 then g.(metrics := m.(left := Some(ZigZagDecode(f.value.n))))
    else if f.tag == 6 then g.(metrics := m.(top := Some(ZigZagDecode(f.value.n))))
    else if f.tag == 7 then g.(metrics := m.(advance := Some(f.value.n)))
    else g
  }

  /** The declarative record equals the record built field by field, starting from the empty one. */
  lemma GlyphOfAppend(fields: seq<Field>, f: Field)
    requires GlyphFieldReadable(f)
    ensures GlyphOf([]) == StyleGlyph(None, None, Metrics(None, None, None, None, None))
    ensures GlyphOf(fields + [f]) == ApplyGlyphField(GlyphOf(fields), f)
  {
    assert (fields + [f])[..|fields|] == fields;
  }

  /** A field whose tag `readGlyph` does not dispatch leaves the record as it was. */
  lemma UnknownTagIgnored(fields: seq<Field>, f: Field)
    requires f.tag == 0 || f.tag > 7
    ensures GlyphOf(fields + [f]) == GlyphOf(fields)
  {
    assert (fields + [f])[..|fields|] == fields;
  }

  /** A later field with a dispatched tag overwrites whatever an earlier one set. */
  lemma {:induction false} RepeatedTagOverwrites(fields: seq<Field>, n: nat, m: nat)
    ensures GlyphOf(fields + [Field(1, Varint(n))]).id == Some(n)
    ensures GlyphOf(fields + [Field(3, Varint(m))]).metrics.width == Some(m)
    ensures GlyphOf(fields + [Field(5, Varint(m))]).metrics.left == Some(ZigZagDecode(m))
  {
  }

  /**
   * `readGlyph`, run over the fields of one glyph message into a fresh record whose metrics
   * start empty; `None` when a dispatched field cannot be read as `readGlyph` asks.
   */
  method ReadGlyph(fields: seq<Field>) returns (r: Option<StyleGlyph>)
    ensures r == if GlyphFieldsReadable(fields) then Some(GlyphOf(fields)) else None
  {
    var id: Option<nat> := None;
    var bitmap: Option<seq<Byte>> := None;
    var width: Option<nat> := None;
    var height: Option<nat> := None;
    var left: Option<int> := None;
    var top: Option<int> := None;
    var advance: Option<nat> := None;
    var k := 0;
    while k < |fields|
      invariant 0 <= k <= |fields|
      invariant GlyphFieldsReadable(fields[..k])
      invariant StyleGlyph(id, bitmap, Metrics(width, height, left, top, advance)) == GlyphOf(fields[..k])
    {
      var f := fields[k];
      assert fields[..k + 1][..k] == fields[..k];
      if !GlyphFieldReadable(f) {
        assert !GlyphFieldReadable(fields[k]);
        return None;
      }
      if f.tag == 1 {
        id := Some(f.value.n);
      } else if f.tag == 2 {
        bitmap := Some(f.value.bytes);
      } else if f.tag == 3 {
        width := Some(f.value.n);
      } else if f.tag == 4 {
        height := Some(f.value.n);
      } else if f.tag == 5 {
        left := Some(ZigZagDecode(f.value.n));
      } else if f.tag == 6 {
        top := Some(ZigZagDecode(f.value.n));
      } else if f.tag == 7 {
        advance := Some(f.value.n);
      }
      k := k + 1;
    }
    assert fields[..k] == fields;
    r := Some(StyleGlyph(id, bitmap, Metrics(width, height, left, top, advance)));
  }

  // ---------------------------------------------------------------------------------------
  // Fontstacks and the range result

  /**
   * The glyph records of one fontstack message, in payload order: one per tag-3 field; other
   * tags are skipped. `None` when a tag-3 field is not a message or a record is unreadable.
   */
  function FontstackRecords(fields: seq<Field>): Option<seq<StyleGlyph>> {
    if fields == [] then Some([])
    else
      var init := FontstackRecords(fields[..|fields| - 1]);
      var f := fields[|fields| - 1];
      if init.None? || f.tag != 3 then init
      else if !f.value.Message? || !GlyphFieldsReadable(f.value.fields) then None
      else Some(init.value + [GlyphOf(f.value.fields)])
  }

  /** Once a prefix of a fontstack cannot be read, neither can the whole. */
  lemma {:induction false} FontstackUnreadablePersists(fields: seq<Field>, k: nat)
    requires k <= |fields| && FontstackRecords(fields[..k]).None?
    ensures FontstackRecords(fields).None?
    decreases |fields| - k
  {
    if k < |fields| {
      assert fields[..k + 1][..k] == fields[..k];
      FontstackUnreadablePersists(fields, k + 1);
    } else {
      assert fields[..k] == fields;
    }
  }

  /** The glyph records of a whole payload: those of every tag-1 fontstack, in order. */
  function Records(top: seq<Field>): Option<seq<StyleGlyph>> {
    if top == [] then Some([])
    else
      var init := Records(top[..|top| - 1]);
      var f := top[|top| - 1];
      if init.None? || f.tag != 1 then init
      else if !f.value.Message? || FontstackRecords(f.value.fields).None? then None
      else Some(init.value + FontstackRecords(f.value.fields).value)
  }

  lemma {:induction false} PayloadUnreadablePersists(top: seq<Field>, k: nat)
    requires k <= |top| && Records(top[..k]).None?
    ensures Records(top).None?
    decreases |top| - k
  {
    if k < |top| {
      assert top[..k + 1][..k] == top[..k];
      PayloadUnreadablePersists(top, k + 1);
    } else {
      assert top[..k] == top;
    }
  }

  /**
   * `glyphs[glyph.id] = glyph` for each record in turn. A record without an id is stored by
   * the code under the key "undefined", which is no codepoint; here it is skipped.
   */
  function Store(glyphs: GlyphMap, records: seq<StyleGlyph>): (r: GlyphMap)
    ensures glyphs.Keys <= r.Keys
  {
    if records == [] then glyphs
    else
      var g := records[|records| - 1];
      var m := Store(glyphs, records[..|records| - 1]);
      if g.id.Some? then m[g.id.value := Some(g)] else m
  }

  /** Record `i` has codepoint `id`, and no later record has it. */
  predicate LastAt(records: seq<StyleGlyph>, i: nat, id: nat) {
    i < |records| && records[i].id == Some(id) && forall j :: i < j < |records| ==> records[j].id != Some(id)
  }

  /** The last record with codepoint `id`. */
  function LastWithId(records: seq<StyleGlyph>, id: nat): (r: Option<StyleGlyph>)
    ensures r.Some? ==> r.value in records && r.value.id == Some(id)
    ensures r.Some? ==> exists i: nat :: LastAt(records, i, id) && records[i] == r.value
    ensures r.None? ==> forall i :: 0 <= i < |records| ==> records[i].id != Some(id)
  {
    if records == [] then None
    else if records[|records| - 1].id == Some(id) then
      assert LastAt(records, |records| - 1, id);
      Some(records[|records| - 1])
    else
      LastAtInit(records, id);
      LastWithId(records[..|records| - 1], id)
  }

  /** A record last with its id in a prefix stays last when a record with another id follows. */
  lemma LastAtInit(records: seq<StyleGlyph>, id: nat)
    requires records != [] && records[|records| - 1].id != Some(id)
    ensures forall i: nat :: LastAt(records[..|records| - 1], i, id) ==> LastAt(records, i, id)
  {
  }

  /** After storing, a codepoint holds the last record with its id, or what it held before. */
  lemma {:induction false} StoreLookup(glyphs: GlyphMap, records: seq<StyleGlyph>, id: nat)
    ensures id in Store(glyphs, records) <==> id in glyphs || LastWithId(records, id).Some?
    ensures LastWithId(records, id).Some? ==> Store(glyphs, records)[id] == LastWithId(records, id)
    ensures LastWithId(records, id).None? && id in glyphs ==> Store(glyphs, records)[id] == glyphs[id]
    decreases |records|
  {
    if records != [] {
      StoreLookup(glyphs, records[..|records| - 1], id);
    }
  }

  lemma {:induction false} StoreConcat(glyphs: GlyphMap, a: seq<StyleGlyph>, b: seq<StyleGlyph>)
    ensures Store(Store(glyphs, a), b) == Store(glyphs, a + b)
    decreases |b|
  {
    if b == [] {
      assert a + b == a;
    } else {
      assert (a + b)[..|a + b| - 1] == a + b[..|b| - 1];
      StoreConcat(glyphs, a, b[..|b| - 1]);
    }
  }

  predicate Between(lo: nat, id: nat, hi: int) { lo <= id <= hi }

  predicate Below(lo: nat, id: nat, hi: nat) { lo <= id < hi }

  /** The `null`-filled map over the codepoints from `lo` up to, not including, `hi`. */
  function Filled(lo: nat, hi: nat): GlyphMap {
    map id: nat | lo <= id < hi && Below(lo, id, hi) :: None
  }

  /** The `null`-filled map over the codepoints `begin..end`. */
  function Prefill(range: nat): (m: GlyphMap)
    ensures forall id: nat :: Between(RangeBounds(range).0, id, RangeBounds(range).1) ==> id in m
  {
    map id: nat | RangeBounds(range).0 <= id <= RangeBounds(range).1 && Between(RangeBounds(range).0, id, RangeBounds(range).1) :: None
  }

  /** What the loader delivers for a transport outcome. */
  function RangeResult(range: nat, t: Transport): (r: LoadResult)
    ensures r.Failed? <==> t.TransportError?
    ensures r.Failed? ==> r.message == t.message
    ensures t.NoResponse? ==> r.Silent?
    ensures r.Loaded? ==> && t.Response?
                          && forall id: nat :: range * 256 <= id <= range * 256 + 255 ==> id in r.glyphs
  {
    match t
    case TransportError(message) => Failed(message)
    case NoResponse => Silent
    case Response(fields) =>
      match Records(fields)
      case None => Silent
      case Some(records) => Loaded(Store(Prefill(range), records))
  }

  /**
   * A loaded range: every codepoint from `begin` to `end` is a key, `null` unless a record
   * has that id; each record's id is a key holding the last record with that id, inside the
   * range or not; no other key exists.
   */
  lemma LoadedContents(range: nat, fields: seq<Field>, id: nat)
    requires RangeResult(range, Response(fields)).Loaded?
    ensures var glyphs := RangeResult(range, Response(fields)).glyphs;
            var last := LastWithId(Records(fields).value, id);
            && (id in glyphs <==> (range * 256 <= id <= range * 256 + 255 || last.Some?))
            && (id in glyphs ==> glyphs[id] == last)
  {
    assert id in Prefill(range) <==> Between(RangeBounds(range).0, id, RangeBounds(range).1);
    StoreLookup(Prefill(range), Records(fields).value, id);
  }

  /** How one more field extends the records of a fontstack prefix. */
  lemma FontstackNext(fields: seq<Field>, k: nat)
    requires k < |fields| && FontstackRecords(fields[..k]).Some?
    ensures var f := fields[k];
            FontstackRecords(fields[..k + 1])
            == if f.tag != 3 then FontstackRecords(fields[..k])
               else if !f.value.Message? || !GlyphFieldsReadable(f.value.fields) then None
               else Some(FontstackRecords(fields[..k]).value + [GlyphOf(f.value.fields)])
  {
    assert fields[..k + 1][..k] == fields[..k];
  }

  /** Storing one more record writes its id, if it has one. */
  lemma StoreNext(glyphs: GlyphMap, records: seq<StyleGlyph>, g: StyleGlyph)
    ensures Store(glyphs, records + [g])
            == if g.id.Some? then Store(glyphs, records)[g.id.value := Some(g)] else Store(glyphs, records)
  {
    assert (records + [g])[..|records|] == records;
  }

  /** `readFontstack` over the fields of one fontstack message, storing into `glyphs`. */
  method ReadFontstack(fields: seq<Field>, glyphs: GlyphMap) returns (r: Option<GlyphMap>)
    ensures r == if FontstackRecords(fields).Some? then Some(Store(glyphs, FontstackRecords(fields).value)) else None
  {
    var m := glyphs;
    var k := 0;
    while k < |fields|
      invariant 0 <= k <= |fields|
      invariant FontstackRecords(fields[..k]).Some?
      invariant m == Store(glyphs, FontstackRecords(fields[..k]).value)
    {
      var f := fields[k];
      FontstackNext(fields, k);
      if f.tag == 3 {
        if !f.value.Message? {
          FontstackUnreadablePersists(fields, k + 1);
          return None;
        }
        var glyph := ReadGlyph(f.value.fields);
        if glyph.None? {
          FontstackUnreadablePersists(fields, k + 1);
          return None;
        }
        StoreNext(glyphs, FontstackRecords(fields[..k]).value, glyph.value);
        if glyph.value.id.Some? {
          m := m[glyph.value.id.value := glyph];
        }
      }
      k := k + 1;
    }
    assert fields[..k] == fields;
    r := Some(m);
  }

  /** `readFields(readFontstacks, glyphs)` over a whole payload. */
  method ReadFontstacks(top: seq<Field>, glyphs: GlyphMap) returns (r: Option<GlyphMap>)
    ensures r == if Records(top).Some? then Some(Store(glyphs, Records(top).value)) else None
  {
    var m := glyphs;
    var k := 0;
    while k < |top|
      invariant 0 <= k <= |top|
      invariant Records(top[..k]).Some?
      invariant m == Store(glyphs, Records(top[..k]).value)
    {
      var f := top[k];
      assert top[..k + 1][..k] == top[..k];
      if f.tag == 1 {
        if !f.value.Message? {
          PayloadUnreadablePersists(top, k + 1);
          return None;
        }
        var stored := ReadFontstack(f.value.fields, m);
        if stored.None? {
          PayloadUnreadablePersists(top, k + 1);
          return None;
        }
        StoreConcat(glyphs, Records(top[..k]).value, FontstackRecords(f.value.fields).value);
        m := stored.value;
      }
      k := k + 1;
    }
    assert top[..k] == top;
    r := Some(m);
  }

  /** The response half of the loader: pre-fill `begin..end` with `null`, then decode over it. */
  method HandleResponse(range: nat, t: Transport) returns (r: LoadResult)
    ensures r == RangeResult(range, t)
  {
    match t {
      case TransportError(message) =>
        return Failed(message);
      case NoResponse =>
        return Silent;
      case Response(fields) =>
        var (begin, end) := RangeBounds(range);
        var glyphs: GlyphMap := map[];
        var i := begin;
        while i <= end
          invariant begin <= i <= end + 1
          invariant glyphs == Filled(begin, i)
        {
          glyphs := glyphs[i := None];
          i := i + 1;
        }
        assert glyphs == Prefill(range);
        var decoded := ReadFontstacks(fields, glyphs);
        if decoded.None? {
          return Silent;
        }
        return Loaded(decoded.value);
    }
  }

  /** The fields of the record `{id: 5, width: 10, height: 12, left: -2, top: -8, advance: 10}`. */
  function ExampleFields(): seq<Field> {
    [Field(1, Varint(5)), Field(3, Varint(10)), Field(4, Varint(12)),
     Field(5, Varint(ZigZagEncode(-2))), Field(6, Varint(ZigZagEncode(-8))), Field(7, Varint(10))]
  }

  function ExampleGlyph(): StyleGlyph {
    StyleGlyph(Some(5), None, Metrics(Some(10), Some(12), Some(-2), Some(-8), Some(10)))
  }

  lemma ExampleGlyphDecodes()
    ensures GlyphFieldsReadable(ExampleFields()) && GlyphOf(ExampleFields()) == ExampleGlyph()
  {
    var f := ExampleFields();
    assert ZigZagEncode(-2) == 3 && ZigZagEncode(-8) == 15;
    GlyphOfAppend([], f[0]);
    assert [] + [f[0]] == f[..1];
    GlyphOfAppend(f[..1], f[1]);
    assert f[..1] + [f[1]] == f[..2];
    GlyphOfAppend(f[..2], f[2]);
    assert f[..2] + [f[2]] == f[..3];
    GlyphOfAppend(f[..3], f[3]);
    assert f[..3] + [f[3]] == f[..4];
    GlyphOfAppend(f[..4], f[4]);
    assert f[..4] + [f[4]] == f[..5];
    GlyphOfAppend(f[..5], f[5]);
    assert f[..5] + [f[5]] == f;
  }

  /** That record in a one-fontstack payload, range 0: its metrics at key 5, `null` at the other 255 keys. */
  lemma ExampleRecord()
    ensures var r := RangeResult(0, Response([Field(1, Message([Field(3, Message(ExampleFields()))]))]));
            && r.Loaded?
            && 5 in r.glyphs && r.glyphs[5] == Some(ExampleGlyph())
            && forall id: nat :: id != 5 ==> (id in r.glyphs <==> id <= 255) && (id in r.glyphs ==> r.glyphs[id] == None)
  {
    var top := [Field(1, Message([Field(3, Message(ExampleFields()))]))];
    ExampleGlyphDecodes();
    var stack := [Field(3, Message(ExampleFields()))];
    assert stack[..0] == [] && top[..0] == [];
    assert FontstackRecords(stack[..0]) == Some([]) && Records(top[..0]) == Some([]);
    assert [] + [ExampleGlyph()] == [ExampleGlyph()];
    assert FontstackRecords(stack) == Some([ExampleGlyph()]);
    assert Records(top) == Some([ExampleGlyph()]);
    forall id: nat
      ensures (id in RangeResult(0, Response(top)).glyphs <==> id <= 255 || id == 5)
      ensures id in RangeResult(0, Response(top)).glyphs ==>
                RangeResult(0, Response(top)).glyphs[id] == if id == 5 then Some(ExampleGlyph()) else None
    {
      LoadedContents(0, top, id);
    }
  }
}
