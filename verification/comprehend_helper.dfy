/**
 * Redaction of detected sensitive-information spans and removal of
 * function-call markup from backend output (helpers/comprehend_helper.py).
 *
 * The detection service itself is not modelled: its answer, the list of
 * entities with their types and offsets, is an input.
 */
module ComprehendHelper {
  import opened Wrappers
  import opened PyStr
  import opened Seqs

  const REDACTED: string := "<REDACTED>"

  /** One entity reported by the detector: its type and its `[begin, end)` offsets. */
  datatype Entity = Entity(etype: string, begin: int, end: int)

  /** The redacted text and the set of entity types that caused a redaction. */
  datatype Redaction = Redaction(text: string, flagged: set<string>)

  /**
   * `set(entities).difference(ALLOWED_COMPREHEND_PII_ENTITIES)`: the types
   * reported by the detector that are not on the allowlist.
   */
  function FlaggedTypes(entities: seq<Entity>, allowed: set<string>): (r: set<string>)
    ensures forall t :: t in r <==> t !in allowed && exists k :: 0 <= k < |entities| && entities[k].etype == t
  {
    set k | 0 <= k < |entities| && entities[k].etype !in allowed :: entities[k].etype
  }

  /** The entities whose text is replaced, in the detector's order. */
  function Disallowed(entities: seq<Entity>, allowed: set<string>): (r: seq<Entity>)
    ensures |r| <= |entities|
    ensures forall k :: 0 <= k < |r| ==> r[k].etype !in allowed && r[k] in entities
  {
    if |entities| == 0 then []
    else if entities[0].etype in allowed then Disallowed(entities[1..], allowed)
    else [entities[0]] + Disallowed(entities[1..], allowed)
  }

  /**
   * The splice loop of `detect_and_redact_pii`, from cursor `prev` on: an
   * allowed entity is skipped without moving the cursor; any other entity
   * contributes `message[prev:begin]` and the redaction token and moves the
   * cursor to its end; finally `message[prev:]` is appended.  Slices are
   * Python slices, so out-of-range or reversed offsets are clamped.
   */
  function RedactFrom(message: string, entities: seq<Entity>, allowed: set<string>, prev: int): string
  {
    if |entities| == 0 then PySlice(message, prev, |message|)
    else if entities[0].etype in allowed then RedactFrom(message, entities[1..], allowed, prev)
    else PySlice(message, prev, entities[0].begin) + REDACTED
         + RedactFrom(message, entities[1..], allowed, entities[0].end)
  }

  /** `detect_and_redact_pii`, given the detector's entity list. */
  function DetectAndRedact(message: string, entities: seq<Entity>, allowed: set<string>): Redaction {
    Redaction(RedactFrom(message, entities, allowed, 0), FlaggedTypes(entities, allowed))
  }

  /** Something is flagged iff at least one span is replaced. */
  lemma {:induction false} FlaggedIffSomethingReplaced(entities: seq<Entity>, allowed: set<string>)
    ensures FlaggedTypes(entities, allowed) != {} <==> |Disallowed(entities, allowed)| > 0
    decreases |entities|
  {
    if |entities| > 0 {
      FlaggedIffSomethingReplaced(entities[1..], allowed);
      if entities[0].etype !in allowed {
        assert entities[0].etype in FlaggedTypes(entities, allowed);
      } else {
        assert FlaggedTypes(entities, allowed) == FlaggedTypes(entities[1..], allowed) by {
          forall t ensures t in FlaggedTypes(entities, allowed) <==> t in FlaggedTypes(entities[1..], allowed) {
            if t in FlaggedTypes(entities, allowed) {
              var k :| 0 <= k < |entities| && entities[k].etype == t && t !in allowed;
              assert k > 0 && entities[1..][k - 1].etype == t;
            }
            if t in FlaggedTypes(entities[1..], allowed) {
              var k :| 0 <= k < |entities[1..]| && entities[1..][k].etype == t && t !in allowed;
              assert entities[k + 1].etype == t;
            }
          }
        }
      }
    }
  }

  /** Allowed entities are invisible to the splice: only the disallowed ones matter. */
  lemma {:induction false} OnlyDisallowedMatter(message: string, entities: seq<Entity>, allowed: set<string>, prev: int)
    ensures RedactFrom(message, entities, allowed, prev)
         == RedactFrom(message, Disallowed(entities, allowed), allowed, prev)
    decreases |entities|
  {
    if |entities| > 0 {
      if entities[0].etype in allowed {
        OnlyDisallowedMatter(message, entities[1..], allowed, prev);
      } else {
        OnlyDisallowedMatter(message, entities[1..], allowed, entities[0].end);
        var d := Disallowed(entities, allowed);
        assert d[0] == entities[0] && d[1..] == Disallowed(entities[1..], allowed);
      }
    }
  }

  /**
   * Inserting an allowed entity anywhere in the detector's list does not
   * change the redacted text: it is skipped without advancing the cursor, so
   * its text is copied verbatim.
   */
  lemma {:induction false} AllowedEntityIsSkipped(message: string, before: seq<Entity>, x: Entity,
                                                  after: seq<Entity>, allowed: set<string>, prev: int)
    requires x.etype in allowed
    ensures RedactFrom(message, before + [x] + after, allowed, prev)
         == RedactFrom(message, before + after, allowed, prev)
    decreases |before|
  {
    if |before| == 0 {
      assert before + [x] + after == [x] + after;
      assert ([x] + after)[1..] == after;
      assert before + after == after;
    } else {
      var next := if before[0].etype in allowed then prev else before[0].end;
      AllowedEntityIsSkipped(message, before[1..], x, after, allowed, next);
      assert (before + [x] + after)[0] == before[0];
      assert (before + [x] + after)[1..] == before[1..] + [x] + after;
      assert (before + after)[0] == before[0];
      assert (before + after)[1..] == before[1..] + after;
    }
  }

  /** With no disallowed entity, the text comes back unchanged and nothing is flagged. */
  lemma {:induction false} NothingDisallowedMeansUnchanged(message: string, entities: seq<Entity>, allowed: set<string>)
    requires forall k :: 0 <= k < |entities| ==> entities[k].etype in allowed
    ensures DetectAndRedact(message, entities, allowed) == Redaction(message, {})
  {
    OnlyDisallowedMatter(message, entities, allowed, 0);
    assert Disallowed(entities, allowed) == [];
    assert message[0..|message|] == message;
  }

  /**
   * The spans lie in order inside the text starting at `prev`, without
   * overlapping: prev <= b1 <= e1 <= b2 <= ... <= ek <= n.
   */
  ghost predicate OrderedSpans(spans: seq<Entity>, prev: int, n: int) {
    if |spans| == 0 then 0 <= prev <= n
    else 0 <= prev <= spans[0].begin <= spans[0].end <= n && OrderedSpans(spans[1..], spans[0].end, n)
  }

  /** The pieces of text outside the spans: `m[prev:b1]`, `m[e1:b2]`, ..., `m[ek:]`. */
  ghost function Gaps(message: string, spans: seq<Entity>, prev: int): (r: seq<string>)
    requires OrderedSpans(spans, prev, |message|)
    ensures |r| == |spans| + 1
    decreases |spans|
  {
    if |spans| == 0 then [message[prev..]]
    else [message[prev..spans[0].begin]] + Gaps(message, spans[1..], spans[0].end)
  }

  /** The pieces of text inside the spans: `m[b1:e1]`, ..., `m[bk:ek]`. */
  ghost function Removed(message: string, spans: seq<Entity>, prev: int): (r: seq<string>)
    requires OrderedSpans(spans, prev, |message|)
    ensures |r| == |spans|
    decreases |spans|
  {
    if |spans| == 0 then []
    else [message[spans[0].begin..spans[0].end]] + Removed(message, spans[1..], spans[0].end)
  }

  /** Alternating concatenation `g0 + r0 + g1 + r1 + ... + gk`. */
  ghost function Weave(gaps: seq<string>, fills: seq<string>): string
    requires |gaps| == |fills| + 1
    decreases |fills|
  {
    if |fills| == 0 then gaps[0] else gaps[0] + fills[0] + Weave(gaps[1..], fills[1..])
  }

  ghost function TotalLength(pieces: seq<string>): nat {
    if |pieces| == 0 then 0 else |pieces[0]| + TotalLength(pieces[1..])
  }

  /**
   * For ordered, disjoint, in-bounds disallowed spans the redacted text is
   * `m[0:b1] + "<REDACTED>" + m[e1:b2] + ... + "<REDACTED>" + m[ek:]`: the text
   * outside the spans, joined by the redaction token.
   */
  lemma {:induction false} RedactionJoinsGaps(message: string, spans: seq<Entity>, allowed: set<string>, prev: int)
    requires OrderedSpans(spans, prev, |message|)
    requires forall k :: 0 <= k < |spans| ==> spans[k].etype !in allowed
    ensures RedactFrom(message, spans, allowed, prev) == Join(Gaps(message, spans, prev), REDACTED)
    decreases |spans|
  {
    if |spans| > 0 {
      RedactionJoinsGaps(message, spans[1..], allowed, spans[0].end);
      var g := Gaps(message, spans, prev);
      assert g[1..] == Gaps(message, spans[1..], spans[0].end);
    }
  }

  /**
   * Nothing outside the spans is lost: putting the removed span texts back
   * between the kept pieces reconstructs the original text.
   */
  lemma {:induction false} GapsAndSpansRebuildText(message: string, spans: seq<Entity>, prev: int)
    requires OrderedSpans(spans, prev, |message|)
    ensures Weave(Gaps(message, spans, prev), Removed(message, spans, prev)) == message[prev..]
    decreases |spans|
  {
    if |spans| > 0 {
      var b, e := spans[0].begin, spans[0].end;
      GapsAndSpansRebuildText(message, spans[1..], e);
      WeaveStep(message, spans, prev);
      SlicesJoin(message, prev, b, e);
      SlicesJoin(message, prev, e, |message|);
    }
  }

  /** One step of the rebuild: the first kept piece, the first removed span, then the rest. */
  lemma WeaveStep(message: string, spans: seq<Entity>, prev: int)
    requires OrderedSpans(spans, prev, |message|) && |spans| > 0
    ensures var b, e := spans[0].begin, spans[0].end;
            Weave(Gaps(message, spans, prev), Removed(message, spans, prev))
              == (message[prev..b] + message[b..e]) + Weave(Gaps(message, spans[1..], e), Removed(message, spans[1..], e))
  {
    var g := Gaps(message, spans, prev);
    var r := Removed(message, spans, prev);
    assert g[1..] == Gaps(message, spans[1..], spans[0].end);
    assert r[1..] == Removed(message, spans[1..], spans[0].end);
  }

  ghost function SpanLengths(spans: seq<Entity>): int {
    if |spans| == 0 then 0 else spans[0].end - spans[0].begin + SpanLengths(spans[1..])
  }

  /**
   * Under the same conditions the redacted text has length
   * `len(m) - sum(ei - bi) + k * len("<REDACTED>")`.
   */
  lemma {:induction false} RedactedLength(message: string, spans: seq<Entity>, allowed: set<string>, prev: int)
    requires OrderedSpans(spans, prev, |message|)
    requires forall k :: 0 <= k < |spans| ==> spans[k].etype !in allowed
    ensures |RedactFrom(message, spans, allowed, prev)|
         == |message| - prev - SpanLengths(spans) + |spans| * |REDACTED|
    decreases |spans|
  {
    if |spans| > 0 {
      var b, e := spans[0].begin, spans[0].end;
      RedactedLength(message, spans[1..], allowed, e);
      assert RedactFrom(message, spans, allowed, prev)
          == message[prev..b] + REDACTED + RedactFrom(message, spans[1..], allowed, e);
      assert |spans| * |REDACTED| == (|spans| - 1) * |REDACTED| + |REDACTED|;
      assert SpanLengths(spans) == e - b + SpanLengths(spans[1..]);
    } else {
      assert RedactFrom(message, spans, allowed, prev) == message[prev..];
    }
  }

  /**
   * The detector's disallowed entities, when ordered and disjoint, are
   * replaced exactly: every kept piece is verbatim original text.
   */
  lemma DetectAndRedactSplicesSpans(message: string, entities: seq<Entity>, allowed: set<string>)
    requires OrderedSpans(Disallowed(entities, allowed), 0, |message|)
    ensures DetectAndRedact(message, entities, allowed).text
         == Join(Gaps(message, Disallowed(entities, allowed), 0), REDACTED)
    ensures |DetectAndRedact(message, entities, allowed).text|
         == |message| - SpanLengths(Disallowed(entities, allowed)) + |Disallowed(entities, allowed)| * |REDACTED|
  {
    var d := Disallowed(entities, allowed);
    OnlyDisallowedMatter(message, entities, allowed, 0);
    RedactionJoinsGaps(message, d, allowed, 0);
    RedactedLength(message, d, allowed, 0);
  }

  /** The example of a span at `[5, 10)`: the first five and the trailing characters survive. */
  lemma SingleSpanExample(message: string, etype: string, allowed: set<string>)
    requires |message| >= 10 && etype !in allowed
    ensures DetectAndRedact(message, [Entity(etype, 5, 10)], allowed)
         == Redaction(message[..5] + REDACTED + message[10..], {etype})
  {
    var e := [Entity(etype, 5, 10)];
    assert FlaggedTypes(e, allowed) == {etype} by {
      assert e[0].etype == etype;
      forall t ensures t in FlaggedTypes(e, allowed) <==> t == etype {
      }
    }
    assert RedactFrom(message, e, allowed, 0) == message[0..5] + REDACTED + message[10..|message|];
  }

  // Function-call markup removal: re.sub(r"<function>.*?</function>", "", text)

  const OPEN: string := "<function>"
  const CLOSE: string := "</function>"

  /**
   * The lazy body `.*?` followed by the closing marker, tried from index `q`:
   * the first index at which the closing marker occurs, provided no newline
   * (which `.` does not match) comes before it.
   */
  function FindClose(s: string, q: nat): (r: Option<nat>)
    requires q <= |s|
    ensures r.Some? ==> q <= r.value && OccursAt(s, CLOSE, r.value)
    decreases |s| - q
  {
    if OccursAt(s, CLOSE, q) then Some(q)
    else if q < |s| && s[q] != '\n' then FindClose(s, q + 1)
    else None
  }

  /**
   * The lazy search finds the first closing marker with no newline before
   * it; it fails exactly when every closing marker from `q` on is preceded by
   * a newline.
   */
  lemma {:induction false} FindCloseIsShortest(s: string, q: nat)
    requires q <= |s|
    ensures FindClose(s, q).Some? ==>
              forall j :: q <= j < FindClose(s, q).value ==> s[j] != '\n' && !OccursAt(s, CLOSE, j)
    ensures FindClose(s, q).None? ==>
              forall j :: q <= j && OccursAt(s, CLOSE, j) ==> exists i :: q <= i < j && s[i] == '\n'
    decreases |s| - q
  {
    if !OccursAt(s, CLOSE, q) && q < |s| && s[q] != '\n' {
      FindCloseIsShortest(s, q + 1);
    }
  }

  /** End index of the regex match starting at `p`, if the pattern matches there. */
  function MatchEnd(s: string, p: nat): (r: Option<nat>)
    requires p <= |s|
    ensures r.Some? ==> p + |OPEN| + |CLOSE| <= r.value <= |s|
  {
    if OccursAt(s, OPEN, p) then
      match FindClose(s, p + |OPEN|)
      case Some(q) => Some(q + |CLOSE|)
      case None => None
    else None
  }

  /** The substitution loop from index `p`: a match is dropped, otherwise one character is kept. */
  function StripMarkupFrom(s: string, p: nat): (r: string)
    requires p <= |s|
    ensures |r| <= |s| - p
    decreases |s| - p
  {
    if p == |s| then []
    else match MatchEnd(s, p)
      case Some(e) => StripMarkupFrom(s, e)
      case None => [s[p]] + StripMarkupFrom(s, p + 1)
  }

  /** `remove_unwanted_text_from_llm_response`; it never lengthens its input. */
  function RemoveUnwantedText(s: string): (r: string)
    ensures |r| <= |s|
  {
    StripMarkupFrom(s, 0)
  }

  lemma {:induction false} StripWithoutOpenIsIdentity(s: string, p: nat)
    requires p <= |s|
    requires forall i: nat :: !OccursAt(s, OPEN, i)
    ensures StripMarkupFrom(s, p) == s[p..]
    decreases |s| - p
  {
    if p < |s| {
      StripWithoutOpenIsIdentity(s, p + 1);
      assert [s[p]] + s[p + 1..] == s[p..];
    }
  }

  /** Text containing no `<function>` is returned unchanged. */
  lemma NoMarkupUnchanged(s: string)
    requires !Contains(s, OPEN)
    ensures RemoveUnwantedText(s) == s
  {
    ContainsIffOccurs(s, OPEN);
    StripWithoutOpenIsIdentity(s, 0);
  }

  lemma {:induction false} FindCloseShift(s: string, d: nat, q: nat)
    requires d <= q <= |s|
    ensures FindClose(s, q).Some? <==> FindClose(s[d..], q - d).Some?
    ensures FindClose(s, q).Some? ==> FindClose(s, q).value == FindClose(s[d..], q - d).value + d
    decreases |s| - q
  {
    OccursAtShift(s, CLOSE, d, q);
    if q < |s| {
      assert s[d..][q - d] == s[q];
      FindCloseShift(s, d, q + 1);
    }
  }

  lemma MatchEndShift(s: string, d: nat, p: nat)
    requires d <= p <= |s|
    ensures MatchEnd(s, p).Some? <==> MatchEnd(s[d..], p - d).Some?
    ensures MatchEnd(s, p).Some? ==> MatchEnd(s, p).value == MatchEnd(s[d..], p - d).value + d
  {
    OccursAtShift(s, OPEN, d, p);
    if OccursAt(s, OPEN, p) {
      FindCloseShift(s, d, p + |OPEN|);
    }
  }

  /** The substitution from index `p` only depends on the text from `p` on. */
  lemma {:induction false} StripSuffix(s: string, d: nat, p: nat)
    requires d <= p <= |s|
    ensures StripMarkupFrom(s, p) == StripMarkupFrom(s[d..], p - d)
    decreases |s| - p
  {
    if p < |s| {
      MatchEndShift(s, d, p);
      match MatchEnd(s, p)
      case Some(e) =>
        StripSuffix(s, d, e);
        ShiftStepMatch(s, d, p, e);
      case None =>
        StripSuffix(s, d, p + 1);
        ShiftStepNoMatch(s, d, p);
    }
  }

  lemma ShiftStepMatch(s: string, d: nat, p: nat, e: nat)
    requires d <= p < |s| && d <= e
    requires MatchEnd(s, p) == Some(e) && MatchEnd(s[d..], p - d) == Some(e - d)
    requires StripMarkupFrom(s, e) == StripMarkupFrom(s[d..], e - d)
    ensures StripMarkupFrom(s, p) == StripMarkupFrom(s[d..], p - d)
  {
    StripStepMatch(s, p, e);
    StripStepMatch(s[d..], p - d, e - d);
  }

  lemma ShiftStepNoMatch(s: string, d: nat, p: nat)
    requires d <= p < |s|
    requires MatchEnd(s, p).None? && MatchEnd(s[d..], p - d).None?
    requires StripMarkupFrom(s, p + 1) == StripMarkupFrom(s[d..], p + 1 - d)
    ensures StripMarkupFrom(s, p) == StripMarkupFrom(s[d..], p - d)
  {
    var t := s[d..];
    assert t[p - d] == s[p];
    StripStepNoMatch(s, p);
    StripStepNoMatch(t, p - d);
  }

  lemma StripStepMatch(s: string, p: nat, e: nat)
    requires p < |s| && MatchEnd(s, p) == Some(e)
    ensures StripMarkupFrom(s, p) == StripMarkupFrom(s, e)
  {
  }

  lemma StripStepNoMatch(s: string, p: nat)
    requires p < |s| && MatchEnd(s, p).None?
    ensures StripMarkupFrom(s, p) == [s[p]] + StripMarkupFrom(s, p + 1)
  {
  }

  /** The marker `<function>` holds `<` only as its first character. */
  lemma OpenHasOneAngle()
    ensures forall k :: 0 < k < |OPEN| ==> OPEN[k] != '<'
  {
    assert OPEN == ['<', 'f', 'u', 'n', 'c', 't', 'i', 'o', 'n', '>'];
  }

  /**
   * No `<function>` starts inside a text free of it when what follows starts
   * with `<`: the marker cannot straddle the boundary either.
   */
  lemma NoOpenStartsInPrefix(a: string, b: string, p: nat)
    requires p < |a| && forall i: nat :: !OccursAt(a, OPEN, i)
    requires |b| == 0 || b[0] == '<'
    ensures !OccursAt(a + b, OPEN, p)
  {
    var s := a + b;
    var n := |OPEN|;
    if p + n <= |a| {
      assert !OccursAt(a, OPEN, p);
      assert s[p..p + n] == a[p..p + n];
    } else if p + n <= |s| {
      var k := |a| - p;
      OpenHasOneAngle();
      assert s[p..p + n][k] == s[|a|] == b[0];
      assert OPEN[k] != '<';
    }
  }

  /**
   * A prefix holding no `<function>`, followed by text that starts with `<`,
   * is copied verbatim: no match can start inside it.
   */
  lemma {:induction false} PlainPrefixKept(a: string, b: string, p: nat)
    requires p <= |a| && forall i: nat :: !OccursAt(a, OPEN, i)
    requires |b| == 0 || b[0] == '<'
    ensures StripMarkupFrom(a + b, p) == a[p..] + StripMarkupFrom(b, 0)
    decreases |a| - p
  {
    if p < |a| {
      NoOpenStartsInPrefix(a, b, p);
      PlainPrefixKept(a, b, p + 1);
      KeptCharacterStep(a, b, p, StripMarkupFrom(b, 0));
    } else {
      StripSuffix(a + b, |a|, |a|);
      assert (a + b)[|a|..] == b;
    }
  }

  /** One character of the prefix at which no match starts is copied in front of the rest. */
  lemma KeptCharacterStep(a: string, b: string, p: nat, rest: string)
    requires p < |a| && !OccursAt(a + b, OPEN, p)
    requires StripMarkupFrom(a + b, p + 1) == a[p + 1..] + rest
    ensures StripMarkupFrom(a + b, p) == a[p..] + rest
  {
    var s := a + b;
    assert MatchEnd(s, p).None?;
    StripStepNoMatch(s, p);
    assert s[p] == a[p];
    assert [a[p]] + a[p + 1..] == a[p..];
  }

  /**
   * A `<function>...</function>` pair on one line, whose body is the shortest
   * one (no closing marker starts earlier), is removed together with both
   * markers; text before it that holds no `<function>` is kept, and the rest
   * of the text is processed on its own.
   */
  lemma MarkupPairRemoved(a: string, body: string, b: string)
    requires !Contains(a, OPEN) && '\n' !in body
    requires forall j :: 0 <= j < |body| ==> !OccursAt(body + CLOSE, CLOSE, j)
    ensures RemoveUnwantedText(a + OPEN + body + CLOSE + b) == a + RemoveUnwantedText(b)
  {
    var t := OPEN + body + CLOSE + b;
    var e := |OPEN| + |body| + |CLOSE|;
    assert a + OPEN + body + CLOSE + b == a + t;
    ContainsIffOccurs(a, OPEN);
    PlainPrefixKept(a, t, 0);
    PairMatchesAtStart(body, b);
    StripSuffix(t, e, e);
    assert t[e..] == b;
    assert a[0..] == a;
  }

  /** At the start of a one-line pair with the shortest body, the match ends right after the closing marker. */
  lemma PairMatchesAtStart(body: string, b: string)
    requires '\n' !in body
    requires forall j :: 0 <= j < |body| ==> !OccursAt(body + CLOSE, CLOSE, j)
    ensures StripMarkupFrom(OPEN + body + CLOSE + b, 0)
         == StripMarkupFrom(OPEN + body + CLOSE + b, |OPEN| + |body| + |CLOSE|)
  {
    var t := OPEN + body + CLOSE + b;
    assert OccursAt(t, OPEN, 0) by { assert t[..|OPEN|] == OPEN; }
    var q := |OPEN| + |body|;
    assert OccursAt(t, CLOSE, q) by { assert t[q..q + |CLOSE|] == CLOSE; }
    forall j | |OPEN| <= j < q
      ensures t[j] != '\n' && !OccursAt(t, CLOSE, j)
    {
      BodyPosition(body, b, j);
    }
    FindCloseReaches(t, |OPEN|, q);
  }

  lemma BodyPosition(body: string, b: string, j: nat)
    requires '\n' !in body
    requires forall j :: 0 <= j < |body| ==> !OccursAt(body + CLOSE, CLOSE, j)
    requires |OPEN| <= j < |OPEN| + |body|
    ensures (OPEN + body + CLOSE + b)[j] != '\n'
    ensures !OccursAt(OPEN + body + CLOSE + b, CLOSE, j)
  {
    var t := OPEN + body + CLOSE + b;
    var i := j - |OPEN|;
    assert t[j] == body[i];
    assert !OccursAt(body + CLOSE, CLOSE, i);
    assert i + |CLOSE| <= |body + CLOSE|;
    assert t[j..j + |CLOSE|] == (body + CLOSE)[i..i + |CLOSE|];
  }

  /** The lazy search stops at the first closing marker when nothing before it stops it. */
  lemma {:induction false} FindCloseReaches(s: string, q: nat, target: nat)
    requires q <= target && OccursAt(s, CLOSE, target)
    requires forall j :: q <= j < target ==> s[j] != '\n' && !OccursAt(s, CLOSE, j)
    ensures FindClose(s, q) == Some(target)
    decreases target - q
  {
    if q < target {
      FindCloseReaches(s, q + 1, target);
    }
  }
}
