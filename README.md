# Temperature of the essayist: parser, generation driver and experiment loop

This project models three parts of the temperature-of-the-essayist experiments.

The **essay parser** is `extract_prompt` and `read_essay`, which appear word for word in three
files. An essay is annotated with the literal markers `[START]`, `[CHANGEPOINT]` and `[END]`.
`read_essay` finds every occurrence of each marker. It rejects the essay when the three counts
differ. Otherwise it cuts three parallel lists from the k-th occurrences:
- the full prompt runs from the beginning to the k-th changepoint;
- the short prompt runs from the k-th start to the k-th changepoint;
- the actual output runs from the k-th changepoint to the k-th end.

Each piece is a Python slice with the markers removed by three chained `str.replace` calls.

The **generation driver** is `generate_text` and its copy `run_model`. It builds a
dictionary of decoding options: defaults, then the caller's options, with a length derived from
the actual output. For every temperature of a sweep it asks the model for one continuation. It
then cuts off the echoed prompt: the output is everything after the first occurrence of the last
100 characters of the prompt, and the call fails when those characters are missing.

The **experiment loop** is `run` of essay/autocomplete.py. It calls the driver once per passage
of every essay and appends one row per temperature to a results table.

Modules:
- `Wrappers`: `Option` and `Result`.
- `PyStr`: the Python primitives used. These are slicing with negative and out-of-range bounds,
  `str.index`, `re.finditer` over a literal pattern, and `str.replace`.
- `EssayParser`: `extract_prompt`, `read_essay` and their properties. These are pure functions
  and lemmas.
- `BloomDriver`: `generate_text` as a method with a mutable option map and a loop. It is proved
  equal to the specification function `GenerateSpec`, whose meaning is stated by lemmas.
  `run_model` delegates to it.
- `AutocompleteRun`: `run` as nested loops. These are proved equal to the specification function
  `RunRows`, whose shape is stated by lemmas.

The language model is outside the model. The tokenizer's token count is the parameter
`tokenCount`. Tokenising the prompt, `model.generate` and `tokenizer.decode` together form the
parameter `generate`. It receives the prompt and the decoding options of every generate call made
so far in the driver call, the current one last. The sampler is re-seeded with `set_seed(4242)`
when a driver call begins, so what a call draws can depend on the calls before it in the same
driver call. Temperatures are values of an arbitrary type.

## Model

| member | source | states |
|---|---|---|
| PyStr.ClampIndex | essay/autocomplete.py:23 | a slice bound, after Python's normalisation of negative and too-large bounds, lies in [0, len] |
| PyStr.Slice | essay/autocomplete.py:23 | `s[lo:hi]` has length clamped stop minus clamped start, or 0 when the start is not before the stop, and its k-th element is the element at the clamped start plus k |
| PyStr.Index | essay/utils/bloom.py:74 | `str.index` fails exactly when the pattern is not a substring; otherwise it returns an occurrence with no occurrence before it |
| PyStr.IndexFrom | essay/utils/bloom.py:74 | the search from position i returns the first occurrence at or after i, or none when there is no such occurrence |
| PyStr.FindFrom | essay/autocomplete.py:35-37 | the `re.finditer` scan reports only occurrences, in increasing order and pairwise non-overlapping |
| PyStr.FindFromComplete | essay/autocomplete.py:35-37 | for a pattern whose first character does not recur in it, the scan reports every occurrence |
| PyStr.FindFromSkip | essay/autocomplete.py:35-37 | positions holding no occurrence do not change what the scan reports |
| PyStr.NoOverlap | essay/autocomplete.py:35-37 | an occurrence of a pattern with the same first character as a head-only pattern q (such as one marker and another, all starting with '[' and holding no other '[') never begins strictly inside an occurrence of q |
| PyStr.FindAll | essay/autocomplete.py:35-37 | the list of `match.start()` over `re.finditer` holds only occurrences of the pattern, strictly increasing and at least the pattern's length apart |
| PyStr.Replace | essay/autocomplete.py:24-26 | `str.replace` with a replacement no longer than the pattern never lengthens the string; its behaviour is stated by the lemmas below |
| PyStr.ReplaceAbsent | essay/autocomplete.py:24-26 | `replace` leaves a string without the pattern unchanged |
| PyStr.ReplaceMatchFront | essay/autocomplete.py:24-26 | a pattern at the front is substituted and the scan resumes after it |
| PyStr.ReplaceKeepPrefix | essay/autocomplete.py:24-26 | a front holding no character that can start the pattern passes through `replace` unchanged |
| PyStr.ReplaceKeepNearMatch | essay/autocomplete.py:24-26 | a front of at least two characters that parts from the pattern at its second character, and holds no other character that can start the pattern, passes through `replace` unchanged |
| EssayParser.StripMarkers | essay/autocomplete.py:24-26 | the three chained `replace(marker, '')` calls never lengthen the text |
| EssayParser.ExtractPrompt | essay/autocomplete.py:21-29 | the prompt is empty when the clamped start is not before the clamped stop, and never longer than the slice it is cut from |
| EssayParser.ExtractPromptUnmarked | essay/experiments/autocomplete.py:19-27 | a slice holding none of the three markers comes back unchanged |
| EssayParser.ReadEssay | essay/autocomplete.py:31-52 | fails exactly when the three marker counts are not all equal; on success all three lists have one entry per changepoint, and the k-th triple is cut at the k-th start, changepoint and end (the full prompt from offset 0) |
| EssayParser.MarkerIndicesAreOccurrences | essay/autocomplete.py:35-37 | the indices listed for a marker are exactly the positions where it occurs, strictly increasing, so the k-th index is the k-th occurrence |
| EssayParser.NoBracketNoMarker | essay/autocomplete.py:24-26 | text without '[' holds no marker |
| EssayParser.StripMarkerPrefix | essay/autocomplete.py:24-26 | the three chained `replace` calls drop a marker at the front of the text and act on the rest as before |
| EssayParser.StripBracketFree | essay/autocomplete.py:24-26 | marker removal leaves text without '[' unchanged |
| EssayParser.StripBracketFreePrefix | essay/autocomplete.py:24-26 | marker removal keeps a front without '[' as it is and acts on the rest |
| EssayParser.ActualOutputSkipsChangepoint | autocomplete_experiment.py:35 | when the k-th changepoint precedes the k-th end, the k-th actual output is the text strictly between the two markers, with markers removed |
| EssayParser.StripSplit | essay/autocomplete.py:24-26 | marker removal on a concatenation is marker removal on each part, when every '[' of the first part begins a marker inside it |
| EssayParser.ExtractSplits | essay/autocomplete.py:21-29 | extracting up to c and from c to e, and joining the two, gives the extraction of the whole span, when the first part is well-marked |
| EssayParser.WellMarkedBefore | essay/autocomplete.py:42-44 | in a well-marked essay, the text from any position up to an occurrence of a marker is well-marked |
| EssayParser.ShortActualRoundTrip | essay/autocomplete.py:42-44 | in a well-marked essay whose k-th start, changepoint and end come in that order, the k-th short prompt followed by the k-th actual output is the span from the k-th start to the k-th end with markers removed |
| EssayParser.FullPromptEndsWithShort | essay/experiments/autocomplete.py:40-41 | in a well-marked essay, for every k whose start comes no later than its changepoint, the k-th full prompt is the text before the k-th start, with markers removed, followed by the k-th short prompt |
| EssayParser.RoundTripNeedsWellMarked | essay/autocomplete.py:42-44 | in `[START]a[EN[CHANGEPOINT]D]b[END]` the markers occur at 0, 11 and 27; the short prompt and the actual output join to "a[END]b" while the span with markers removed is "ab", so the round trip needs a well-marked essay |
| EssayParser.SinglePassage | essay/autocomplete.py:35-44 | `[START]a[CHANGEPOINT]b[END]` with '['-free a and b parses to full prompt a, short prompt a and actual output b |
| EssayParser.HelloWorldExample | essay/autocomplete.py:42-44 | "[START]Hello [CHANGEPOINT]world[END]" parses to prompt "Hello ", short prompt "Hello " and actual output "world" |
| BloomDriver.BaseOptions | essay/utils/bloom.py:43-56 | the options before the loop hold the caller's keys and the four defaults; every caller option overrides its default; without a caller `max_new_tokens` the length is 3 times the token count of the actual output |
| BloomDriver.IterationOptions | essay/utils/bloom.py:69-70 | the iteration's temperature overrides any other temperature and every other option is kept |
| BloomDriver.Anchor | essay/utils/bloom.py:73 | the end of the prompt is its last 100 characters, or the whole prompt when shorter, and it is a suffix of the prompt |
| BloomDriver.StripEcho | essay/utils/bloom.py:73-74 | the cut fails exactly when the anchor does not occur; otherwise the output is what follows the first occurrence of the anchor |
| BloomDriver.StripEchoSplits | essay/utils/bloom.py:73-74 | the decoded text is the text before the first anchor, then the anchor, then the output |
| BloomDriver.Calls | essay/utils/bloom.py:68-75 | the options of the first n generate calls of a sweep are n entries, the k-th being the merged options with the k-th temperature |
| BloomDriver.Sweep | essay/utils/bloom.py:68-75 | a finished sweep has one output per iteration; a failed one failed because an anchor was missing |
| BloomDriver.SweepOutputs | essay/utils/bloom.py:68-75 | the sweep succeeds exactly when every iteration has an output, and its k-th output is that of iteration k |
| BloomDriver.GenerateSpec | essay/utils/bloom.py:29-83 | the call fails with the missing-temperatures error exactly when no temperatures are given; with temperatures it fails only for a missing anchor, and a success has one output per temperature |
| BloomDriver.GenerateSpecOutputs | essay/utils/bloom.py:29-83 | without temperatures the call fails; otherwise it succeeds exactly when every decoded text holds the anchor, and returns one output per temperature in order, the k-th cut from the text generated with the merged options and the k-th temperature |
| BloomDriver.ExactEchoStripped | essay/utils/bloom.py:73-74 | when the model echoes the prompt exactly and the anchor does not occur earlier in the prompt, the output is exactly the continuation |
| BloomDriver.ShortPromptEchoStripped | essay/utils/bloom.py:73-74 | a prompt of at most 100 characters that is echoed exactly is always removed completely |
| BloomDriver.RepeatedAnchorKeepsPromptText | essay/utils/bloom.py:73-74 | when the anchor also occurs earlier in the prompt, the output keeps the prompt's text after that first occurrence in front of the continuation |
| BloomDriver.Retemper | essay/utils/bloom.py:69-70 | overwriting the temperature of the dictionary gives the iteration's options and keeps every other option equal to the merged options |
| BloomDriver.GenerateText | essay/utils/bloom.py:29-83 | the method with its mutable option dictionary and loop returns exactly what `GenerateSpec` describes |
| BloomDriver.RunModel | bloom.py:20-71 | with the literals 3, 2 and 100: fails without temperatures; otherwise succeeds exactly when every decoded text holds the prompt's last 100 characters, and returns one output per temperature, each cut after the first occurrence of that anchor |
| AutocompleteRun.PromptCount | essay/autocomplete.py:66 | `zip` of the three lists yields as many passages as the shortest list has |
| AutocompleteRun.DriverSized | essay/autocomplete.py:67-72 | the driver `run` calls returns one output per temperature and fails only when an anchor is missing |
| AutocompleteRun.PromptRows | essay/autocomplete.py:83-90 | the rows of one passage are one per temperature: the k-th carries the k-th temperature and the k-th predicted output |
| AutocompleteRun.EssayRows | essay/autocomplete.py:66-91 | a successful essay has one row per passage and temperature |
| AutocompleteRun.RunRows | essay/autocomplete.py:58-91 | a successful table has one row per passage of every essay and temperature |
| AutocompleteRun.EssayRowsFailureSticks | essay/autocomplete.py:66-91 | once a passage of an essay fails, the essay's rows fail with the same error |
| AutocompleteRun.RunRowsFailureSticks | essay/autocomplete.py:58-91 | once an essay fails, the whole table fails with the same error |
| AutocompleteRun.EssayRowsSucceeds | essay/autocomplete.py:66-91 | an essay's rows exist exactly when the driver succeeds on every passage |
| AutocompleteRun.EssayRowsShape | essay/autocomplete.py:66-91 | an essay's rows are one per passage and temperature: row a carries passage a / L (L temperatures) with its essay id, full prompt, short prompt and actual output, temperature a % L, and the driver's output at that temperature |
| AutocompleteRun.RunRowsSucceeds | essay/autocomplete.py:58-91 | the table exists exactly when the driver succeeds on every passage of every essay |
| AutocompleteRun.RunRowsShape | essay/autocomplete.py:58-91 | the table has one row per passage and temperature, its temperature column repeats the sweep in order, and its essay column lies between 1 and the number of essays and never goes down |
| AutocompleteRun.RunRowsAt | essay/autocomplete.py:58-91 | the table lists essays, then passages, then temperatures: row (P + j) * L + t, where P is the number of passages of the essays before essay i and L the number of temperatures, is the row of passage j of essay i at temperature t, carrying the essay's number i + 1, its full prompt, short prompt and actual output, the temperature, and the driver's output at it |
| AutocompleteRun.GeneratePassage | essay/autocomplete.py:67-72 | the call made for one passage returns what the driver returns for it |
| AutocompleteRun.RunEssay | essay/autocomplete.py:66-91 | the inner loop over an essay's passages returns exactly `EssayRows` for that essay |
| AutocompleteRun.Run | essay/autocomplete.py:55-92 | the nested loops over essays and passages return exactly `RunRows`, whose success and shape the lemmas above state |

## Left out

- Reading the essay files, writing the per-essay report files and the CSV file, and all printing
  (`verbose`) are not modelled. `ReadEssay` takes the text of the file, and `Run` takes the parsed
  essays.
- In essay/autocomplete.py the essays are numbered from 1, yet the report file name and the
  progress message use `i+1`. This is file output and printing, so it is not modelled. The table's
  `essay` column, which is modelled, uses `i`.
- `__init__` (loading the model, `np.linspace` temperatures, and `np.round` in
  autocomplete_experiment.py) is left out. Temperatures are an arbitrary type, so their
  floating-point values are not modelled.
- `download_model_online` and `load_model` (essay/utils/bloom.py and bloom.py) are the
  repository's own functions wrapping library calls that fetch and load the model; they are not
  modelled. `set_seed`, the tokenizer and `model.generate`/`decode` are library calls. They
  appear only as the uninterpreted parameters `tokenCount` and `generate`. Loading a model when none is passed is not modelled.
- `generate_probabilities`, the perplexity scripts and the animation scripts are outside the
  modelled core.
- `prompt_short` is only printed by `generate_text` and `run_model`, so it is not a parameter.
- The `run` methods of essay/experiments/autocomplete.py and autocomplete_experiment.py only
  write report files, so they are not modelled.
- `DataFrame.append` is modelled as appending rows to a sequence.
- Run: it takes a ghost driver and requires that the driver answer every passage as
  `GenerateSpec` does with the experiment's sweep, options and model. `ExperimentDriverDrives`
  shows that the experiment's own driver qualifies.
- Run: its inner loop is the method `RunEssay`, which collects an essay's rows and appends them
  once. The table is the same, because an error discards everything.
- The tokenizer, `model.generate` and `decode` cannot raise in the model: `tokenCount` and
  `generate` are total functions. An exception from them, which would propagate out of
  `generate_text` and abort `run`, is not modelled.
- `generate` sees the prompt and the options of the driver call's generate calls so far, not the
  model's weights or the rest of the library state; the sampler's state is taken to be fixed by
  `set_seed(4242)` and those calls.
- EssayParser.ShortActualRoundTrip: it holds for well-marked essays, where every '[' begins a
  marker, and when the k-th markers come in the order start, changepoint, end. Other essays
  can break it, as RoundTripNeedsWellMarked shows.
- EssayParser.FullPromptEndsWithShort: it holds for well-marked essays and when the k-th start
  comes no later than the k-th changepoint, for the same reason.
- PyStr.Replace: it is defined only for a non-empty pattern. Every call in the source uses one of
  the three markers.
- `**kwargs` entries that `generate_text` binds to its own named parameters (`model`,
  `tokenizer`, `verbose`, `model_path`) are not separated from the decoding options.
