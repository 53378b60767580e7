/** The essay parser of the autocomplete experiments (`extract_prompt` and `read_essay`, present
    word for word in essay/autocomplete.py, essay/experiments/autocomplete.py and
    autocomplete_experiment.py). An essay is annotated with the literal markers `[START]`,
    `[CHANGEPOINT]` and `[END]`; the k-th occurrences of the three markers delimit the k-th
    prompt and its true continuation. */
module EssayParser {
  import opened Wrappers
  import opened PyStr

  const START: string := "[START]"
  const CHANGEPOINT: string := "[CHANGEPOINT]"
  const END: string := "[END]"

  predicate IsMarker(m: string)
  {
    m == START || m == CHANGEPOINT || m == END
  }

  /** Each marker begins with '[', holds no other '[', and the three differ at their second character. */
  lemma MarkerFacts()
    ensures HeadOnly(START) && HeadOnly(CHANGEPOINT) && HeadOnly(END)
    ensures START[0] == '[' && CHANGEPOINT[0] == '[' && END[0] == '['
    ensures START[1] == 'S' && CHANGEPOINT[1] == 'C' && END[1] == 'E'
  {
  }

  /** The three chained `str.replace` calls of `extract_prompt`, in their order. Removing
      markers never lengthens the text. */
  function StripMarkers(t: string): (r: string)
    ensures |r| <= |t|
  {
    Replace(Replace(Replace(t, START, ""), CHANGEPOINT, ""), END, "")
  }

  /** `extract_prompt(essay, change, start)`: the slice `essay[start:change]` with the markers
      removed. A slice whose start is not before its stop (after Python's clamping) is empty, so
      the prompt is then empty too; removing markers never lengthens the slice. The source's
      default `start=0` is passed explicitly here. */
  function ExtractPrompt(essay: string, change: int, start: int): (r: string)
    ensures ClampIndex(change, |essay|) <= ClampIndex(start, |essay|) ==> r == ""
    ensures |r| <= |Slice(essay, start, change)|
  {
    StripMarkers(Slice(essay, start, change))
  }

  /** A slice holding none of the markers comes back unchanged. */
  lemma ExtractPromptUnmarked(essay: string, change: int, start: int)
    requires !Contains(Slice(essay, start, change), START)
    requires !Contains(Slice(essay, start, change), CHANGEPOINT)
    requires !Contains(Slice(essay, start, change), END)
    ensures ExtractPrompt(essay, change, start) == Slice(essay, start, change)
  {
    var t := Slice(essay, start, change);
    ReplaceAbsent(t, START, "");
    ReplaceAbsent(t, CHANGEPOINT, "");
    ReplaceAbsent(t, END, "");
  }

  /** The prompts of one essay, as three parallel lists. */
  datatype EssayPrompts = EssayPrompts(prompts: seq<string>, promptsShort: seq<string>, actualOutputs: seq<string>)

  /** `ValueError("Number of start, change, and end indices must be equal")` */
  datatype ParseError = MarkerCountMismatch

  /** `read_essay` on the text of the file: the marker positions are found with `re.finditer`;
      the call fails exactly when the three counts are not all equal; otherwise there is one
      prompt triple per `[CHANGEPOINT]`, the k-th triple pairing the k-th occurrence of each
      marker: the full prompt runs from the beginning of the essay to the k-th changepoint, the
      short prompt from the k-th start to the k-th changepoint, the actual output from the k-th
      changepoint to the k-th end. */
  function ReadEssay(essay: string): (r: Result<EssayPrompts, ParseError>)
    ensures r.Failure? <==> |FindAll(essay, START)| != |FindAll(essay, CHANGEPOINT)|
                            || |FindAll(essay, CHANGEPOINT)| != |FindAll(essay, END)|
    ensures r.Success? ==>
              && |r.value.prompts| == |FindAll(essay, CHANGEPOINT)|
              && |r.value.promptsShort| == |FindAll(essay, CHANGEPOINT)|
              && |r.value.actualOutputs| == |FindAll(essay, CHANGEPOINT)|
    ensures r.Success? ==> forall k :: 0 <= k < |FindAll(essay, CHANGEPOINT)| ==>
              var s, c, e := FindAll(essay, START)[k], FindAll(essay, CHANGEPOINT)[k], FindAll(essay, END)[k];
              && r.value.prompts[k] == ExtractPrompt(essay, c, 0)
              && r.value.promptsShort[k] == ExtractPrompt(essay, c, s)
              && r.value.actualOutputs[k] == ExtractPrompt(essay, e, c)
  {
    var starts, changes, ends := FindAll(essay, START), FindAll(essay, CHANGEPOINT), FindAll(essay, END);
    if |starts| != |changes| || |changes| != |ends| then
      Failure(MarkerCountMismatch)
    else
      Success(EssayPrompts(
        seq(|changes|, k requires 0 <= k < |changes| => ExtractPrompt(essay, changes[k], 0)),
        seq(|changes|, k requires 0 <= k < |changes| => ExtractPrompt(essay, changes[k], starts[k])),
        seq(|changes|, k requires 0 <= k < |changes| => ExtractPrompt(essay, ends[k], changes[k]))))
  }

  /** The indices `read_essay` lists for a marker are exactly the positions where it occurs, in
      increasing order, so the k-th index is the k-th occurrence. */
  lemma MarkerIndicesAreOccurrences(essay: string, m: string)
    requires IsMarker(m)
    ensures forall j: nat :: OccursAt(essay, m, j) <==> j in FindAll(essay, m)
    ensures forall a, b :: 0 <= a < b < |FindAll(essay, m)| ==> FindAll(essay, m)[a] < FindAll(essay, m)[b]
  {
    MarkerFacts();
    forall j: nat | OccursAt(essay, m, j)
      ensures j in FindAll(essay, m)
    {
      FindFromComplete(essay, m, 0, j);
    }
  }

  // ---------------------------------------------------------------------------------------------
  // How the marker removal acts on marked-up text

  /** A string without '[' holds no marker. */
  lemma NoBracketNoMarker(t: string, m: string)
    requires '[' !in t && IsMarker(m)
    ensures !Contains(t, m)
  {
    MarkerFacts();
    if Contains(t, m) {
      var j: nat :| j <= |t| && OccursAt(t, m, j);
      OccursAtHead(t, m, j);
    }
  }

  /** A marker at the front of the text is removed by its own `replace` and kept by the others. */
  lemma ReplaceMarkerPrefix(m: string, t: string, q: string)
    requires IsMarker(m) && IsMarker(q)
    ensures Replace(m + t, q, "") == if m == q then Replace(t, q, "") else m + Replace(t, q, "")
  {
    MarkerFacts();
    if m == q {
      ReplaceMatchFront(q, t, "");
      assert "" + Replace(t, q, "") == Replace(t, q, "");
    } else {
      // Two different markers part at their second character, and a marker has no '[' after its first.
      assert m[1] != q[1];
      assert q[0] !in m[1..];
      ReplaceKeepNearMatch(m, t, q, "");
    }
  }

  /** Marker removal ignores a marker at the front of the text. */
  lemma StripMarkerPrefix(m: string, t: string)
    requires IsMarker(m)
    ensures StripMarkers(m + t) == StripMarkers(t)
  {
    var t1 := Replace(t, START, "");
    var t2 := Replace(t1, CHANGEPOINT, "");
    ReplaceMarkerPrefix(m, t, START);
    if m != START {
      ReplaceMarkerPrefix(m, t1, CHANGEPOINT);
      if m != CHANGEPOINT {
        ReplaceMarkerPrefix(m, t2, END);
      }
    }
  }

  /** Text without '[' passes through marker removal unchanged. */
  lemma StripBracketFree(t: string)
    requires '[' !in t
    ensures StripMarkers(t) == t
  {
    NoBracketNoMarker(t, START);
    ReplaceAbsent(t, START, "");
    NoBracketNoMarker(t, CHANGEPOINT);
    ReplaceAbsent(t, CHANGEPOINT, "");
    NoBracketNoMarker(t, END);
    ReplaceAbsent(t, END, "");
  }

  /** One `replace` of a marker over a text with a '['-free front acts on the rest alone. */
  lemma ReplaceBracketFreePrefix(a: string, b: string, q: string)
    requires '[' !in a && IsMarker(q)
    ensures Replace(a + b, q, "") == a + Replace(b, q, "")
  {
    MarkerFacts();
    ReplaceKeepPrefix(a, b, q, "");
  }

  /** Marker removal keeps a '['-free front of the text as it is. */
  lemma StripBracketFreePrefix(a: string, b: string)
    requires '[' !in a
    ensures StripMarkers(a + b) == a + StripMarkers(b)
  {
    var b1 := Replace(b, START, "");
    var b2 := Replace(b1, CHANGEPOINT, "");
    ReplaceBracketFreePrefix(a, b, START);
    ReplaceBracketFreePrefix(a, b1, CHANGEPOINT);
    ReplaceBracketFreePrefix(a, b2, END);
  }

  // ---------------------------------------------------------------------------------------------
  // Properties of read_essay

  /** Extracting from a `[CHANGEPOINT]` onwards drops that marker. */
  lemma ExtractAfterChangepoint(essay: string, c: nat, e: nat)
    requires OccursAt(essay, CHANGEPOINT, c) && c + |CHANGEPOINT| <= e <= |essay|
    ensures ExtractPrompt(essay, e, c) == ExtractPrompt(essay, e, c + |CHANGEPOINT|)
  {
    var t := essay[c + |CHANGEPOINT|..e];
    assert Slice(essay, c, e) == essay[c..e] == CHANGEPOINT + t;
    assert Slice(essay, c + |CHANGEPOINT|, e) == t;
    StripMarkerPrefix(CHANGEPOINT, t);
  }

  /** The actual output never keeps its leading `[CHANGEPOINT]`: when the k-th changepoint comes
      before the k-th end, the actual output is the text strictly between the two markers, with
      markers removed. */
  lemma ActualOutputSkipsChangepoint(essay: string, k: nat)
    requires ReadEssay(essay).Success?
    requires k < |FindAll(essay, CHANGEPOINT)|
    requires FindAll(essay, CHANGEPOINT)[k] < FindAll(essay, END)[k]
    ensures ReadEssay(essay).value.actualOutputs[k]
            == ExtractPrompt(essay, FindAll(essay, END)[k], FindAll(essay, CHANGEPOINT)[k] + |CHANGEPOINT|)
  {
    MarkerFacts();
    var c, e := FindAll(essay, CHANGEPOINT)[k], FindAll(essay, END)[k];
    assert OccursAt(essay, CHANGEPOINT, c) && OccursAt(essay, END, e);
    NoOverlap(essay, CHANGEPOINT, END, c, e);
    ExtractAfterChangepoint(essay, c, e);
  }

  // ---------------------------------------------------------------------------------------------
  // Splitting an extraction in two

  /** Every '[' of the text begins one of the three markers, wholly inside the text: the text is
      the essay's own characters with markers in between. */
  predicate WellMarked(t: string)
  {
    forall i :: 0 <= i < |t| && t[i] == '[' ==>
      OccursAt(t, START, i) || OccursAt(t, CHANGEPOINT, i) || OccursAt(t, END, i)
  }

  /** A marker occurring in the suffix `t[d..]` at i occurs in `t` at d + i, and conversely. */
  lemma OccursShift(t: string, m: string, d: nat, i: nat)
    requires d <= |t|
    ensures OccursAt(t[d..], m, i) <==> OccursAt(t, m, d + i)
  {
    if d + i + |m| <= |t| {
      assert t[d..][i..i + |m|] == t[d + i..d + i + |m|];
    }
  }

  /** A suffix of a well-marked text that starts at a marker boundary is well-marked. */
  lemma WellMarkedSuffix(t: string, d: nat)
    requires WellMarked(t) && d <= |t|
    ensures WellMarked(t[d..])
  {
    forall i | 0 <= i < |t[d..]| && t[d..][i] == '['
      ensures OccursAt(t[d..], START, i) || OccursAt(t[d..], CHANGEPOINT, i) || OccursAt(t[d..], END, i)
    {
      OccursShift(t, START, d, i);
      OccursShift(t, CHANGEPOINT, d, i);
      OccursShift(t, END, d, i);
    }
  }

  /** A well-marked text that is not empty begins with a marker or with a character other than '['. */
  lemma FirstToken(x: string) returns (d: nat)
    requires WellMarked(x) && |x| > 0
    ensures 0 < d <= |x| && (IsMarker(x[..d]) || (d == 1 && x[0] != '['))
  {
    if x[0] != '[' {
      d := 1;
    } else if OccursAt(x, START, 0) {
      d := |START|;
    } else if OccursAt(x, CHANGEPOINT, 0) {
      d := |CHANGEPOINT|;
    } else {
      d := |END|;
    }
  }

  /** Marker removal acts on a leading marker, or a leading character other than '[', apart from
      the rest. */
  lemma PeelToken(h: string, z: string)
    requires IsMarker(h) || (|h| == 1 && h[0] != '[')
    ensures StripMarkers(h + z) == StripMarkers(h) + StripMarkers(z)
  {
    if IsMarker(h) {
      StripMarkerPrefix(h, z);
      StripMarkerPrefix(h, "");
      assert h + "" == h;
      assert StripMarkers("") == "";
    } else {
      StripBracketFreePrefix(h, z);
      StripBracketFree(h);
    }
  }

  /** Nothing is removed from, or added to, the empty text. */
  lemma StripEmpty(x: string, y: string)
    requires |x| == 0
    ensures StripMarkers(x + y) == StripMarkers(x) + StripMarkers(y)
  {
    assert x + y == y;
    assert StripMarkers(x) == "";
  }

  lemma Regroup(a: string, b: string, c: string)
    ensures (a + b) + c == a + (b + c)
  {
  }

  /** Peeling the first d characters of x, with or without text after it. */
  lemma PeelFront(x: string, d: nat, y: string)
    requires d <= |x| && (IsMarker(x[..d]) || (d == 1 && x[0] != '['))
    ensures StripMarkers(x + y) == StripMarkers(x[..d]) + StripMarkers(x[d..] + y)
    ensures StripMarkers(x) == StripMarkers(x[..d]) + StripMarkers(x[d..])
  {
    assert x + y == x[..d] + (x[d..] + y);
    assert x == x[..d] + x[d..];
    PeelToken(x[..d], x[d..] + y);
    PeelToken(x[..d], x[d..]);
  }

  /** Marker removal splits at any point after a well-marked text: no marker can straddle the
      boundary, since every '[' before it already begins a marker that ends before it. */
  lemma {:induction false} StripSplit(x: string, y: string)
    requires WellMarked(x)
    ensures StripMarkers(x + y) == StripMarkers(x) + StripMarkers(y)
    decreases |x|
  {
    if |x| == 0 {
      StripEmpty(x, y);
    } else {
      var d := FirstToken(x);
      PeelFront(x, d, y);
      WellMarkedSuffix(x, d);
      StripSplit(x[d..], y);
      Regroup(StripMarkers(x[..d]), StripMarkers(x[d..]), StripMarkers(y));
    }
  }

  /** Extracting up to c and from c on, and joining the two, is extracting the whole span, when
      the first part is well-marked. */
  lemma ExtractSplits(essay: string, s: nat, c: nat, e: nat)
    requires s <= c <= e <= |essay| && WellMarked(essay[s..c])
    ensures ExtractPrompt(essay, c, s) + ExtractPrompt(essay, e, c) == ExtractPrompt(essay, e, s)
  {
    assert Slice(essay, s, e) == essay[s..e] == essay[s..c] + essay[c..e];
    assert Slice(essay, s, c) == essay[s..c];
    assert Slice(essay, c, e) == essay[c..e];
    StripSplit(essay[s..c], essay[c..e]);
  }

  /** A marker that begins inside `essay[i..j]`, in an essay with a marker at j, lies wholly
      inside it. */
  lemma InsideBefore(essay: string, i: nat, j: nat, q: string, m: string, p: nat)
    requires i <= j <= |essay| && p < j - i && IsMarker(q) && IsMarker(m)
    requires OccursAt(essay, q, j) && OccursAt(essay, m, i + p)
    ensures OccursAt(essay[i..j], m, p)
  {
    MarkerFacts();
    NoOverlap(essay, m, q, i + p, j);
    assert i + p + |m| <= j;
    var t := essay[i..j];
    var u, w := t[p..p + |m|], essay[i + p..i + p + |m|];
    assert forall r :: 0 <= r < |m| ==> u[r] == w[r];
    assert u == w;
  }

  /** In a well-marked essay the text between position i and an occurrence of a marker at j is
      well-marked: a marker that begins before j ends by j. */
  lemma WellMarkedBefore(essay: string, i: nat, j: nat, q: string)
    requires WellMarked(essay) && i <= j && IsMarker(q) && OccursAt(essay, q, j)
    ensures WellMarked(essay[i..j])
  {
    var t := essay[i..j];
    forall p | 0 <= p < |t| && t[p] == '['
      ensures OccursAt(t, START, p) || OccursAt(t, CHANGEPOINT, p) || OccursAt(t, END, p)
    {
      assert essay[i + p] == '[';
      if OccursAt(essay, START, i + p) {
        InsideBefore(essay, i, j, q, START, p);
      } else if OccursAt(essay, CHANGEPOINT, i + p) {
        InsideBefore(essay, i, j, q, CHANGEPOINT, p);
      } else {
        InsideBefore(essay, i, j, q, END, p);
      }
    }
  }

  /** Round trip of a passage: in a well-marked essay whose k-th markers come in the order start,
      changepoint, end, the short prompt followed by the actual output is the whole span from the
      k-th start to the k-th end with markers removed. */
  lemma ShortActualRoundTrip(essay: string, k: nat)
    requires ReadEssay(essay).Success? && WellMarked(essay)
    requires k < |FindAll(essay, CHANGEPOINT)|
    requires FindAll(essay, START)[k] <= FindAll(essay, CHANGEPOINT)[k] <= FindAll(essay, END)[k]
    ensures ReadEssay(essay).value.promptsShort[k] + ReadEssay(essay).value.actualOutputs[k]
            == ExtractPrompt(essay, FindAll(essay, END)[k], FindAll(essay, START)[k])
  {
    var s, c, e := FindAll(essay, START)[k], FindAll(essay, CHANGEPOINT)[k], FindAll(essay, END)[k];
    WellMarkedBefore(essay, s, c, CHANGEPOINT);
    ExtractSplits(essay, s, c, e);
  }

  /** The full prompt is what precedes the k-th `[START]`, with markers removed, followed by the
      short prompt, in every well-marked essay and for every k whose start comes no later than its
      changepoint. */
  lemma FullPromptEndsWithShort(essay: string, k: nat)
    requires ReadEssay(essay).Success? && WellMarked(essay)
    requires k < |FindAll(essay, CHANGEPOINT)|
    requires FindAll(essay, START)[k] <= FindAll(essay, CHANGEPOINT)[k]
    ensures ReadEssay(essay).value.prompts[k]
            == ExtractPrompt(essay, FindAll(essay, START)[k], 0) + ReadEssay(essay).value.promptsShort[k]
  {
    var s, c := FindAll(essay, START)[k], FindAll(essay, CHANGEPOINT)[k];
    WellMarkedBefore(essay, 0, s, START);
    ExtractSplits(essay, 0, s, c);
  }

  /** An essay that is not well-marked: "[EN" and "D]" are stray text around a changepoint. */
  const STRAY: string := START + "a[EN" + CHANGEPOINT + "D]b" + END

  /** Without well-marked text the round trip fails. In STRAY the short prompt keeps the stray
      text as "a[EN" and the actual output keeps it as "D]b". In the whole span, though, the
      stray pieces close around the removed changepoint into an `[END]`, which is removed in its
      turn, leaving "ab". */
  lemma RoundTripNeedsWellMarked()
    ensures OccursAt(STRAY, START, 0) && OccursAt(STRAY, CHANGEPOINT, 11) && OccursAt(STRAY, END, 27)
    ensures ExtractPrompt(STRAY, 11, 0) + ExtractPrompt(STRAY, 27, 11) == "a[END]b"
    ensures ExtractPrompt(STRAY, 27, 0) == "ab"
  {
    assert STRAY[0..7] == START;
    assert STRAY[11..24] == CHANGEPOINT;
    assert STRAY[27..32] == END;
    StrayShort();
    StrayActual();
    StraySpan();
  }

  lemma StrayShort()
    ensures ExtractPrompt(STRAY, 11, 0) == "a[EN"
  {
    assert Slice(STRAY, 0, 11) == START + "a[EN";
    StripMarkerPrefix(START, "a[EN");
  }

  lemma StrayActual()
    ensures ExtractPrompt(STRAY, 27, 11) == "D]b"
  {
    assert Slice(STRAY, 11, 27) == CHANGEPOINT + "D]b";
    StripMarkerPrefix(CHANGEPOINT, "D]b");
    StripBracketFree("D]b");
  }

  lemma StraySpan()
    ensures ExtractPrompt(STRAY, 27, 0) == "ab"
  {
    var t := "[EN" + (CHANGEPOINT + "D]b");
    StraySpanText();
    StripMarkerPrefix(START, "a" + t);
    StripBracketFreePrefix("a", t);
    StrayTail();
  }

  lemma StraySpanText()
    ensures Slice(STRAY, 0, 27) == START + ("a" + ("[EN" + (CHANGEPOINT + "D]b")))
  {
    assert Slice(STRAY, 0, 27) == START + "a[EN" + CHANGEPOINT + "D]b";
    assert "a[EN" == "a" + "[EN";
  }

  /** The three replaces on "[EN[CHANGEPOINT]D]b": `[START]` is absent, removing `[CHANGEPOINT]`
      leaves "[END]b", and removing that `[END]` leaves "b". */
  lemma StrayTail()
    ensures StripMarkers("[EN" + (CHANGEPOINT + "D]b")) == "b"
  {
    var t := "[EN" + (CHANGEPOINT + "D]b");
    StrayTailStart();
    StrayTailChangepoint();
    assert "[EN" + "D]b" == END + "b";
    ReplaceMarkerPrefix(END, "b", END);
    assert Replace("b", END, "") == "b";
  }

  lemma StrayTailStart()
    ensures Replace("[EN" + (CHANGEPOINT + "D]b"), START, "") == "[EN" + (CHANGEPOINT + "D]b")
  {
    MarkerFacts();
    ReplaceKeepNearMatch("[EN", CHANGEPOINT + "D]b", START, "");
    ReplaceMarkerPrefix(CHANGEPOINT, "D]b", START);
    assert Replace("D]b", START, "") == "D]b";
  }

  lemma StrayTailChangepoint()
    ensures Replace("[EN" + (CHANGEPOINT + "D]b"), CHANGEPOINT, "") == "[EN" + "D]b"
  {
    MarkerFacts();
    ReplaceKeepNearMatch("[EN", CHANGEPOINT + "D]b", CHANGEPOINT, "");
    ReplaceMarkerPrefix(CHANGEPOINT, "D]b", CHANGEPOINT);
    assert Replace("D]b", CHANGEPOINT, "") == "D]b";
  }

  /** An essay with a single annotated passage: `[START]a[CHANGEPOINT]b[END]` with '['-free `a`
      and `b` yields full prompt `a`, short prompt `a` and actual output `b`. */
  lemma SinglePassage(a: string, b: string)
    requires '[' !in a && '[' !in b
    ensures ReadEssay(START + a + CHANGEPOINT + b + END) == Success(EssayPrompts([a], [a], [b]))
  {
    var essay := START + a + CHANGEPOINT + b + END;
    var p1 := |START| + |a|;
    var p2 := p1 + |CHANGEPOINT| + |b|;
    SinglePassageIndices(a, b);
    SinglePassageExtracts(a, b);
    var r := ReadEssay(essay);
    assert r.Success?;
    assert r.value.prompts == [a];
    assert r.value.promptsShort == [a];
    assert r.value.actualOutputs == [b];
  }

  /** The two extractions of a single-passage essay give back its two texts. */
  lemma SinglePassageExtracts(a: string, b: string)
    requires '[' !in a && '[' !in b
    ensures var essay := START + a + CHANGEPOINT + b + END;
            var p1 := |START| + |a|;
            && ExtractPrompt(essay, p1, 0) == a
            && ExtractPrompt(essay, p1 + |CHANGEPOINT| + |b|, p1) == b
  {
    var essay := START + a + CHANGEPOINT + b + END;
    var p1 := |START| + |a|;
    var p2 := p1 + |CHANGEPOINT| + |b|;
    assert Slice(essay, 0, p1) == START + a;
    assert Slice(essay, p1, p2) == CHANGEPOINT + b;
    StripMarkerPrefix(START, a);
    StripBracketFree(a);
    StripMarkerPrefix(CHANGEPOINT, b);
    StripBracketFree(b);
  }

  /** In a single-passage essay each marker is found once, at its own place. */
  lemma SinglePassageIndices(a: string, b: string)
    requires '[' !in a && '[' !in b
    ensures var essay := START + a + CHANGEPOINT + b + END;
            var p1 := |START| + |a|;
            && FindAll(essay, START) == [0]
            && FindAll(essay, CHANGEPOINT) == [p1]
            && FindAll(essay, END) == [p1 + |CHANGEPOINT| + |b|]
  {
    MarkerFacts();
    var essay := START + a + CHANGEPOINT + b + END;
    var p1 := |START| + |a|;
    var p2 := p1 + |CHANGEPOINT| + |b|;
    assert essay[0..|START|] == START;
    assert essay[p1..p1 + |CHANGEPOINT|] == CHANGEPOINT;
    assert essay[p2..] == END;
    forall j: nat | OccursAt(essay, START, j) ensures j == 0 {
      SinglePassageOccurrence(a, b, START, j);
    }
    forall j: nat | OccursAt(essay, CHANGEPOINT, j) ensures j == p1 {
      SinglePassageOccurrence(a, b, CHANGEPOINT, j);
    }
    forall j: nat | OccursAt(essay, END, j) ensures j == p2 {
      SinglePassageOccurrence(a, b, END, j);
    }
    OnlyMarkerAt(essay, START, 0, 0);
    OnlyMarkerAt(essay, CHANGEPOINT, p1, 0);
    OnlyMarkerAt(essay, END, p2, 0);
  }

  /** A marker occurring in a single-passage essay is one of its three markers, at its place. */
  lemma SinglePassageOccurrence(a: string, b: string, m: string, j: nat)
    requires '[' !in a && '[' !in b && IsMarker(m)
    requires OccursAt(START + a + CHANGEPOINT + b + END, m, j)
    ensures var p1 := |START| + |a|;
            || (j == 0 && m == START)
            || (j == p1 && m == CHANGEPOINT)
            || (j == p1 + |CHANGEPOINT| + |b| && m == END)
  {
    MarkerFacts();
    var essay := START + a + CHANGEPOINT + b + END;
    var p1 := |START| + |a|;
    var p2 := p1 + |CHANGEPOINT| + |b|;
    OccursAtHead(essay, m, j);
    OnlyBracketsAt(a, b, j);
    assert essay[j + 1] == essay[j..j + |m|][1] == m[1];
    assert essay[1] == 'S' && essay[p1 + 1] == 'C' && essay[p2 + 1] == 'E';
  }

  /** The only '[' of a single-passage essay are the first characters of its three markers. */
  lemma OnlyBracketsAt(a: string, b: string, j: nat)
    requires '[' !in a && '[' !in b
    requires j < |START + a + CHANGEPOINT + b + END|
    ensures (START + a + CHANGEPOINT + b + END)[j] == '[' ==>
              j == 0 || j == |START| + |a| || j == |START| + |a| + |CHANGEPOINT| + |b|
  {
    MarkerFacts();
    var essay := START + a + CHANGEPOINT + b + END;
    var p1 := |START| + |a|;
    var p2 := p1 + |CHANGEPOINT| + |b|;
    if j < |START| {
      assert essay[j] == START[j];
    } else if j < p1 {
      assert essay[j] == a[j - |START|];
    } else if j < p1 + |CHANGEPOINT| {
      assert essay[j] == CHANGEPOINT[j - p1];
    } else if j < p2 {
      assert essay[j] == b[j - p1 - |CHANGEPOINT|];
    } else {
      assert essay[j] == END[j - p2];
    }
  }

  /** When a marker occurs at position `p` and nowhere else, `re.finditer` from `i <= p` reports `[p]`. */
  lemma OnlyMarkerAt(essay: string, m: string, p: nat, i: nat)
    requires IsMarker(m) && i <= p && OccursAt(essay, m, p)
    requires forall j: nat :: OccursAt(essay, m, j) ==> j == p
    ensures FindFrom(essay, m, i) == [p]
  {
    FindFromSkip(essay, m, i, p);
    FindFromSkip(essay, m, p + |m|, |essay|);
  }

  /** The worked example: "[START]Hello [CHANGEPOINT]world[END]" gives the prompt "Hello ",
      the short prompt "Hello " and the actual output "world". */
  lemma HelloWorldExample()
    ensures ReadEssay("[START]Hello [CHANGEPOINT]world[END]")
            == Success(EssayPrompts(["Hello "], ["Hello "], ["world"]))
  {
    SinglePassage("Hello ", "world");
    assert START + "Hello " == "[START]Hello ";
    assert "[START]Hello " + CHANGEPOINT == "[START]Hello [CHANGEPOINT]";
    assert "[START]Hello [CHANGEPOINT]" + "world" == "[START]Hello [CHANGEPOINT]world";
    assert "[START]Hello [CHANGEPOINT]world" + END == "[START]Hello [CHANGEPOINT]world[END]";
  }
}
