/** The generation driver: `generate_text` in essay/utils/bloom.py and its copy `run_model`
    in bloom.py. For every temperature of a sweep it asks the language model for one sampled
    continuation of the prompt and cuts the echoed prompt off the decoded text.

    The model is not part of this model. Tokenising the actual output is the parameter
    `tokenCount`; tokenising the prompt, `model.generate` and `tokenizer.decode` together are the
    parameter `generate`. It receives the prompt and the decoding options of every generate call
    made so far in the driver call, the current one last: the sampler is re-seeded with
    `set_seed(4242)` at the start of every driver call, so what it draws in a call depends on the
    calls before it in the same driver call and on nothing earlier. Temperatures are values of an
    arbitrary type `T`. */
module BloomDriver {
  import opened Wrappers
  import opened PyStr

  const MAX_LENGTH_COEFF: nat := 3
  const MAX_REPETITIONS: nat := 2
  const PROMPT_END_LENGTH: int := 100

  /** A value in the keyword-argument dictionary of decoding options. */
  datatype Value<T> = Flag(flag: bool) | Count(count: int) | Temp(temp: T) | Text(text: string)

  type Options<T> = map<string, Value<T>>

  /** The two ways a call fails: `ValueError("Temperatures must be specified")`, and the
      ValueError `str.index` raises when the end of the prompt is not in the decoded text. */
  datatype GenError = TemperaturesMissing | AnchorNotFound

  /** The decoding options every generate call of one driver call starts from: the defaults
      (early stopping, sampling, no repeated bigram, and the output length) overridden by every
      option the caller passed. Without a caller `max_new_tokens` the output may be
      MAX_LENGTH_COEFF times as many tokens as the actual output has. */
  function BaseOptions<T>(actualOutput: string, kwargs: Options<T>, tokenCount: string -> nat): (m: Options<T>)
    ensures m.Keys == kwargs.Keys + {"early_stopping", "do_sample", "no_repeat_ngram_size", "max_new_tokens"}
    ensures forall key :: key in kwargs ==> m[key] == kwargs[key]
    ensures "early_stopping" !in kwargs ==> m["early_stopping"] == Flag(true)
    ensures "do_sample" !in kwargs ==> m["do_sample"] == Flag(true)
    ensures "no_repeat_ngram_size" !in kwargs ==> m["no_repeat_ngram_size"] == Count(MAX_REPETITIONS)
    ensures "max_new_tokens" !in kwargs ==>
              m["max_new_tokens"] == Count(MAX_LENGTH_COEFF * tokenCount(actualOutput))
  {
    var resultLength :=
      if "max_new_tokens" !in kwargs then Count(MAX_LENGTH_COEFF * tokenCount(actualOutput))
      else kwargs["max_new_tokens"];
    var defaults := map["early_stopping" := Flag(true), "do_sample" := Flag(true),
                        "no_repeat_ngram_size" := Count(MAX_REPETITIONS),
                        "max_new_tokens" := resultLength];
    defaults + kwargs
  }

  /** The options of one iteration: the sweep's temperature overrides any other temperature,
      every other option stays as it was. */
  function IterationOptions<T>(base: Options<T>, t: T): (m: Options<T>)
    ensures m.Keys == base.Keys + {"temperature"}
    ensures m["temperature"] == Temp(t)
    ensures forall key :: key in base && key != "temperature" ==> m[key] == base[key]
  {
    base["temperature" := Temp(t)]
  }

  /** `prompt[-PROMPT_END_LENGTH:]`: the last PROMPT_END_LENGTH characters of the prompt, or all
      of it when it is shorter. */
  function Anchor(prompt: string): (r: string)
    ensures |r| == if |prompt| < PROMPT_END_LENGTH then |prompt| else PROMPT_END_LENGTH
    ensures prompt == prompt[..|prompt| - |r|] + r
  {
    var r := Slice(prompt, -PROMPT_END_LENGTH, |prompt|);
    assert r == prompt[|prompt| - |r|..];
    r
  }

  /** `decoded[decoded.index(anchor) + len(anchor):]`: the text after the first occurrence of the
      anchor; None where `str.index` raises, which is exactly when the anchor does not occur. */
  function StripEcho(decoded: string, anchor: string): (r: Option<string>)
    ensures r.None? <==> !Contains(decoded, anchor)
    ensures r.Some? ==>
              var i := |decoded| - |anchor| - |r.value|;
              && 0 <= i
              && OccursAt(decoded, anchor, i)
              && r.value == decoded[i + |anchor|..]
              && forall j: nat :: j < i ==> !OccursAt(decoded, anchor, j)
  {
    match Index(decoded, anchor)
    case None => None
    case Some(i) =>
      var out := Slice(decoded, i + |anchor|, |decoded|);
      assert out == decoded[i + |anchor|..];
      Some(out)
  }

  /** The decoded text is what precedes the first occurrence of the anchor, the anchor, and the output. */
  lemma StripEchoSplits(decoded: string, anchor: string)
    requires StripEcho(decoded, anchor).Some?
    ensures var out := StripEcho(decoded, anchor).value;
            decoded == decoded[..|decoded| - |anchor| - |out|] + anchor + out
  {
    var out := StripEcho(decoded, anchor).value;
    var i := |decoded| - |anchor| - |out|;
    assert decoded == decoded[..i] + decoded[i..i + |anchor|] + decoded[i + |anchor|..];
  }

  /** The options of the first n generate calls of a sweep, in order: the k-th call runs at the
      k-th temperature. */
  function Calls<T>(base: Options<T>, temps: seq<T>, n: nat): (r: seq<Options<T>>)
    requires n <= |temps|
    ensures |r| == n
    ensures forall k :: 0 <= k < n ==> r[k] == IterationOptions(base, temps[k])
  {
    seq(n, k requires 0 <= k < n => IterationOptions(base, temps[k]))
  }

  /** One more call appends its options. */
  lemma CallsStep<T>(base: Options<T>, temps: seq<T>, n: nat)
    requires n < |temps|
    ensures Calls(base, temps, n + 1) == Calls(base, temps, n) + [IterationOptions(base, temps[n])]
  {
  }

  /** The decoded text of the k-th generate call of a sweep: generated after the calls before
      it, with the options of the k-th temperature. */
  function Decoded<T>(prompt: string, base: Options<T>, temps: seq<T>,
                      generate: (string, seq<Options<T>>) -> string, k: nat): string
    requires k < |temps|
  {
    generate(prompt, Calls(base, temps, k + 1))
  }

  /** The k-th output of a sweep: the k-th decoded text with the echoed prompt cut off. */
  function Cut<T>(prompt: string, base: Options<T>, temps: seq<T>,
                  generate: (string, seq<Options<T>>) -> string): nat -> Option<string>
  {
    (k: nat) => if k < |temps| then StripEcho(Decoded(prompt, base, temps, generate, k), Anchor(prompt)) else None
  }

  /** The outputs of the first n iterations of a loop whose k-th iteration yields `cut(k)`; the
      first missing output ends the loop with an error. */
  function Sweep(cut: nat -> Option<string>, n: nat): (r: Result<seq<string>, GenError>)
    ensures r.Success? ==> |r.value| == n
    ensures r.Failure? ==> r.error == AnchorNotFound
  {
    if n == 0 then Success([])
    else
      match Sweep(cut, n - 1)
      case Failure(e) => Failure(e)
      case Success(prev) =>
        match cut(n - 1)
        case None => Failure(AnchorNotFound)
        case Some(out) => Success(prev + [out])
  }

  /** What `generate_text` returns or raises. */
  function GenerateSpec<T>(prompt: string, actualOutput: string, temperatures: Option<seq<T>>,
                           kwargs: Options<T>, tokenCount: string -> nat,
                           generate: (string, seq<Options<T>>) -> string): (r: Result<seq<string>, GenError>)
    ensures r == Failure(TemperaturesMissing) <==> temperatures.None?
    ensures r.Failure? && temperatures.Some? ==> r.error == AnchorNotFound
    ensures r.Success? ==> temperatures.Some? && |r.value| == |temperatures.value|
  {
    match temperatures
    case None => Failure(TemperaturesMissing)
    case Some(temps) =>
      Sweep(Cut(prompt, BaseOptions(actualOutput, kwargs, tokenCount), temps, generate), |temps|)
  }

  /** The loop yields one output per iteration, in order, and fails exactly when some iteration
      has none. */
  lemma {:induction false} SweepOutputs(cut: nat -> Option<string>, n: nat)
    ensures Sweep(cut, n).Success? <==> forall k :: 0 <= k < n ==> cut(k).Some?
    ensures Sweep(cut, n).Success? ==> forall k :: 0 <= k < n ==> Sweep(cut, n).value[k] == cut(k).value
  {
    if n > 0 {
      SweepOutputs(cut, n - 1);
    }
  }

  /** Summary of `generate_text`: without temperatures it raises before anything else; otherwise
      it succeeds exactly when the end of the prompt occurs in every decoded text, and then
      returns one output per temperature, in order, the k-th being what follows the first
      occurrence of the end of the prompt in the k-th decoded text, generated with the caller's
      options over the defaults and the k-th temperature. */
  lemma GenerateSpecOutputs<T>(prompt: string, actualOutput: string, temperatures: Option<seq<T>>,
                               kwargs: Options<T>, tokenCount: string -> nat,
                               generate: (string, seq<Options<T>>) -> string)
    ensures temperatures.None? ==>
              GenerateSpec(prompt, actualOutput, temperatures, kwargs, tokenCount, generate) == Failure(TemperaturesMissing)
    ensures temperatures.Some? ==>
              var base := BaseOptions(actualOutput, kwargs, tokenCount);
              var temps := temperatures.value;
              var r := GenerateSpec(prompt, actualOutput, temperatures, kwargs, tokenCount, generate);
              && (r.Success? <==> forall k :: 0 <= k < |temps| ==>
                                    Contains(Decoded(prompt, base, temps, generate, k), Anchor(prompt)))
              && (r.Success? ==> |r.value| == |temps|)
              && (r.Success? ==> forall k :: 0 <= k < |temps| ==>
                                    StripEcho(Decoded(prompt, base, temps, generate, k), Anchor(prompt))
                                    == Some(r.value[k]))
  {
    if temperatures.Some? {
      var temps := temperatures.value;
      var base := BaseOptions(actualOutput, kwargs, tokenCount);
      var cut := Cut(prompt, base, temps, generate);
      assert GenerateSpec(prompt, actualOutput, temperatures, kwargs, tokenCount, generate) == Sweep(cut, |temps|);
      SweepOutputs(cut, |temps|);
      forall k | 0 <= k < |temps|
        ensures cut(k) == StripEcho(Decoded(prompt, base, temps, generate, k), Anchor(prompt))
      {
        CutAt(prompt, base, temps, generate, k);
      }
    }
  }

  /** The cut is made right after the first occurrence of the anchor. */
  lemma StripEchoAt(decoded: string, anchor: string, p: nat)
    requires OccursAt(decoded, anchor, p)
    requires forall j: nat :: j < p ==> !OccursAt(decoded, anchor, j)
    ensures StripEcho(decoded, anchor) == Some(decoded[p + |anchor|..])
  {
    assert Index(decoded, anchor).Some?;
  }

  /** An occurrence that ends inside the first part of a concatenation is one of that part. */
  lemma OccursInPrefix(a: string, b: string, q: string, j: nat)
    requires j + |q| <= |a|
    ensures OccursAt(a + b, q, j) <==> OccursAt(a, q, j)
  {
    assert (a + b)[j..j + |q|] == a[j..j + |q|];
  }

  /** When the model echoes the prompt exactly and the anchor does not also occur earlier in the
      prompt, the output is precisely the generated continuation. */
  lemma ExactEchoStripped(prompt: string, continuation: string)
    requires forall j: nat :: j < |prompt| - |Anchor(prompt)| ==> !OccursAt(prompt, Anchor(prompt), j)
    ensures StripEcho(prompt + continuation, Anchor(prompt)) == Some(continuation)
  {
    var anchor, decoded := Anchor(prompt), prompt + continuation;
    var p := |prompt| - |anchor|;
    assert prompt[p..p + |anchor|] == anchor;
    OccursInPrefix(prompt, continuation, anchor, p);
    forall j: nat | j < p
      ensures !OccursAt(decoded, anchor, j)
    {
      OccursInPrefix(prompt, continuation, anchor, j);
    }
    StripEchoAt(decoded, anchor, p);
    assert decoded[p + |anchor|..] == continuation;
  }

  /** A prompt no longer than PROMPT_END_LENGTH is its own anchor, so an exact echo is always
      stripped completely. */
  lemma ShortPromptEchoStripped(prompt: string, continuation: string)
    requires |prompt| <= PROMPT_END_LENGTH
    ensures StripEcho(prompt + continuation, Anchor(prompt)) == Some(continuation)
  {
    ExactEchoStripped(prompt, continuation);
  }

  /** When the anchor also occurs earlier in the prompt, the cut is made at that first
      occurrence, and the output keeps the rest of the prompt in front of the continuation. */
  lemma RepeatedAnchorKeepsPromptText(prompt: string, continuation: string, j: nat)
    requires j < |prompt| - |Anchor(prompt)| && OccursAt(prompt, Anchor(prompt), j)
    requires forall i: nat :: i < j ==> !OccursAt(prompt, Anchor(prompt), i)
    ensures StripEcho(prompt + continuation, Anchor(prompt))
            == Some(prompt[j + |Anchor(prompt)|..] + continuation)
  {
    var anchor, decoded := Anchor(prompt), prompt + continuation;
    OccursInPrefix(prompt, continuation, anchor, j);
    forall i: nat | i < j
      ensures !OccursAt(decoded, anchor, i)
    {
      OccursInPrefix(prompt, continuation, anchor, i);
    }
    StripEchoAt(decoded, anchor, j);
    assert decoded[j + |anchor|..] == prompt[j + |anchor|..] + continuation;
  }

  /** One more available output extends a successful sweep by that output. */
  lemma SweepStep(cut: nat -> Option<string>, n: nat, prev: seq<string>)
    requires Sweep(cut, n) == Success(prev) && cut(n).Some?
    ensures Sweep(cut, n + 1) == Success(prev + [cut(n).value])
  {
  }

  /** The k-th entry of a sweep's cut is the k-th decoded text stripped of the anchor. */
  lemma CutAt<T>(prompt: string, base: Options<T>, temps: seq<T>,
                 generate: (string, seq<Options<T>>) -> string, k: nat)
    requires k < |temps|
    ensures Cut(prompt, base, temps, generate)(k)
            == StripEcho(Decoded(prompt, base, temps, generate, k), Anchor(prompt))
  {
  }

  /** The dictionary `generate_text` builds before its loop is BaseOptions. */
  lemma BaseOptionsBuilt<T>(actualOutput: string, kwargs: Options<T>, tokenCount: string -> nat,
                            resultLength: Value<T>)
    requires resultLength == if "max_new_tokens" !in kwargs then Count(MAX_LENGTH_COEFF * tokenCount(actualOutput))
                             else kwargs["max_new_tokens"]
    ensures map["early_stopping" := Flag(true), "do_sample" := Flag(true),
                "no_repeat_ngram_size" := Count(MAX_REPETITIONS),
                "max_new_tokens" := resultLength] + kwargs
            == BaseOptions(actualOutput, kwargs, tokenCount)
  {
  }

  /** Two option dictionaries that differ at most in their temperature. */
  ghost predicate AgreeExceptTemperature<T>(m: Options<T>, base: Options<T>)
  {
    forall key :: key != "temperature" ==>
      (key in m <==> key in base) && (key in m ==> m[key] == base[key])
  }

  /** Overwriting the temperature of such a dictionary gives the iteration's options, and keeps
      it agreeing with the base options. */
  lemma Retemper<T>(base: Options<T>, m: Options<T>, t: T)
    requires AgreeExceptTemperature(m, base)
    ensures m["temperature" := Temp(t)] == IterationOptions(base, t)
    ensures AgreeExceptTemperature(m["temperature" := Temp(t)], base)
  {
    var m' := m["temperature" := Temp(t)];
    assert m'.Keys == IterationOptions(base, t).Keys;
  }

  /** `generate_text`. The options dictionary is built once, updated with the caller's options,
      and then has its temperature overwritten on every iteration; the outputs are appended one
      per temperature. `calls` records the options of the generate calls made so far, which is
      what the sampler's state depends on after the seed. Printing (the `verbose` flag) and loading a model when none is passed are
      not modelled; `prompt_short` is only printed and so is not a parameter. */
  method GenerateText<T>(prompt: string, actualOutput: string, temperatures: Option<seq<T>>,
                         kwargs: Options<T>, tokenCount: string -> nat,
                         generate: (string, seq<Options<T>>) -> string)
    returns (r: Result<seq<string>, GenError>)
    ensures r == GenerateSpec(prompt, actualOutput, temperatures, kwargs, tokenCount, generate)
  {
    if temperatures.None? {
      return Failure(TemperaturesMissing);
    }
    var temps := temperatures.value;
    var resultLength: Value<T>;
    if "max_new_tokens" !in kwargs {
      resultLength := Count(MAX_LENGTH_COEFF * tokenCount(actualOutput));
    } else {
      resultLength := kwargs["max_new_tokens"];
    }
    var modelParams: Options<T> := map["early_stopping" := Flag(true), "do_sample" := Flag(true),
                                       "no_repeat_ngram_size" := Count(MAX_REPETITIONS),
                                       "max_new_tokens" := resultLength];
    modelParams := modelParams + kwargs;
    ghost var base := modelParams;
    assert base == BaseOptions(actualOutput, kwargs, tokenCount) by {
      BaseOptionsBuilt(actualOutput, kwargs, tokenCount, resultLength);
    }
    ghost var cut := Cut(prompt, base, temps, generate);
    var calls: seq<Options<T>> := [];
    var predOutputs: seq<string> := [];
    for i := 0 to |temps|
      invariant Sweep(cut, i) == Success(predOutputs)
      invariant AgreeExceptTemperature(modelParams, base)
      invariant calls == Calls(base, temps, i)
    {
      Retemper(base, modelParams, temps[i]);
      modelParams := modelParams["temperature" := Temp(temps[i])];
      CallsStep(base, temps, i);
      calls := calls + [modelParams];
      var predOutput := generate(prompt, calls);
      var endOfPrompt := Anchor(prompt);
      var found := StripEcho(predOutput, endOfPrompt);
      CutAt(prompt, base, temps, generate, i);
      if found.None? {
        SweepOutputs(cut, |temps|);
        return Failure(AnchorNotFound);
      }
      var predOutputShort := found.value;
      SweepStep(cut, i, predOutputs);
      predOutputs := predOutputs + [predOutputShort];
    }
    return Success(predOutputs);
  }

  /** `run_model` in bloom.py: the same driver with the constants written as literals (3, 2 and
      100). Its results are those of `generate_text`. */
  method RunModel<T>(prompt: string, actualOutput: string, temperatures: Option<seq<T>>,
                     kwargs: Options<T>, tokenCount: string -> nat,
                     generate: (string, seq<Options<T>>) -> string)
    returns (r: Result<seq<string>, GenError>)
    ensures temperatures.None? ==> r == Failure(TemperaturesMissing)
    ensures temperatures.Some? && r.Success? ==> |r.value| == |temperatures.value|
    ensures temperatures.Some? && r.Success? ==>
              var base := BaseOptions(actualOutput, kwargs, tokenCount);
              && ("max_new_tokens" !in kwargs ==> base["max_new_tokens"] == Count(3 * tokenCount(actualOutput)))
              && ("no_repeat_ngram_size" !in kwargs ==> base["no_repeat_ngram_size"] == Count(2))
              && forall k :: 0 <= k < |temperatures.value| ==>
                   StripEcho(Decoded(prompt, base, temperatures.value, generate, k),
                             Slice(prompt, -100, |prompt|))
                   == Some(r.value[k])
    ensures temperatures.Some? ==>
              (r.Success? <==> forall k :: 0 <= k < |temperatures.value| ==>
                 Contains(Decoded(prompt, BaseOptions(actualOutput, kwargs, tokenCount), temperatures.value, generate, k),
                          Slice(prompt, -100, |prompt|)))
  {
    r := GenerateText(prompt, actualOutput, temperatures, kwargs, tokenCount, generate);
    GenerateSpecOutputs(prompt, actualOutput, temperatures, kwargs, tokenCount, generate);
  }
}
