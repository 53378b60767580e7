/** The experiment loop `run` of essay/autocomplete.py. For every essay, and every passage of it,
    the generation driver is called once with the whole temperature sweep, and one result row per
    temperature is appended to the results table.

    The table is a sequence of rows; writing the per-essay report files and the CSV file, and
    printing, are not modelled. */
module AutocompleteRun {
  import opened Wrappers
  import opened EssayParser
  import opened BloomDriver

  /** One row of the results table: the columns `essay`, `full_prompt`, `short_prompt`,
      `act_output`, `temp` and `pred_output`. */
  datatype Row<T> = Row(essay: nat, fullPrompt: string, shortPrompt: string, actOutput: string,
                        temp: T, predOutput: string)

  /** What a run works with besides the essays: the temperature sweep, the caller's decoding
      options, and the model (through the tokenizer's token count and the generate call). */
  datatype Experiment<!T> = Experiment(temperatures: seq<T>, kwargs: Options<T>,
                                      tokenCount: string -> nat,
                                      generate: (string, seq<Options<T>>) -> string)

  /** The number of passages `zip(prompts, prompts_short, actual_outputs)` yields: the length of
      the shortest of the three lists. */
  function PromptCount(e: EssayPrompts): (n: nat)
    ensures n <= |e.prompts| && n <= |e.promptsShort| && n <= |e.actualOutputs|
    ensures n == |e.prompts| || n == |e.promptsShort| || n == |e.actualOutputs|
  {
    var n := if |e.prompts| < |e.promptsShort| then |e.prompts| else |e.promptsShort|;
    if n < |e.actualOutputs| then n else |e.actualOutputs|
  }

  /** The driver as `run` calls it: `generate_text` on one passage with the whole sweep. */
  type Driver = (string, string) -> Result<seq<string>, GenError>

  /** The driver of an experiment: the prompt and the actual output of a passage go to
      `generate_text` together with the experiment's sweep, options and model. */
  function ExperimentDriver<T>(x: Experiment<T>): Driver
  {
    (prompt: string, actualOutput: string) =>
      GenerateSpec(prompt, actualOutput, Some(x.temperatures), x.kwargs, x.tokenCount, x.generate)
  }

  /** A driver that, whenever it succeeds, returns one output per temperature. */
  ghost predicate SweepSized<T>(driver: Driver, temps: seq<T>)
  {
    forall prompt, actualOutput :: driver(prompt, actualOutput).Success? ==>
      |driver(prompt, actualOutput).value| == |temps|
  }

  /** A driver that answers every passage as `generate_text` does with the experiment's sweep,
      options and model. */
  ghost predicate DrivesLike<T>(driver: Driver, x: Experiment<T>)
  {
    forall prompt, actualOutput
      {:trigger GenerateSpec(prompt, actualOutput, Some(x.temperatures), x.kwargs, x.tokenCount, x.generate)} ::
      driver(prompt, actualOutput)
      == GenerateSpec(prompt, actualOutput, Some(x.temperatures), x.kwargs, x.tokenCount, x.generate)
  }

  /** The experiment's own driver answers as `generate_text` does. */
  lemma ExperimentDriverDrives<T>(x: Experiment<T>)
    ensures DrivesLike(ExperimentDriver(x), x)
  {
  }

  /** `generate_text` returns one output per temperature, and fails only when the end of the
      prompt is not found in a decoded text. */
  lemma DriverSized<T>(driver: Driver, x: Experiment<T>)
    requires DrivesLike(driver, x)
    ensures SweepSized(driver, x.temperatures)
    ensures forall prompt, actualOutput :: driver(prompt, actualOutput).Failure? ==>
              driver(prompt, actualOutput).error == AnchorNotFound
  {
    forall prompt, actualOutput
      ensures driver(prompt, actualOutput).Success? ==>
                |driver(prompt, actualOutput).value| == |x.temperatures|
      ensures driver(prompt, actualOutput).Failure? ==>
                driver(prompt, actualOutput).error == AnchorNotFound
    {
      var base := BaseOptions(actualOutput, x.kwargs, x.tokenCount);
      var cut := Cut(prompt, base, x.temperatures, x.generate);
      assert driver(prompt, actualOutput)
             == GenerateSpec(prompt, actualOutput, Some(x.temperatures), x.kwargs, x.tokenCount, x.generate)
             == Sweep(cut, |x.temperatures|);
    }
  }

  /** The rows of one passage: the passage's texts repeated, next to each temperature and the
      output generated at it. */
  function PromptRows<T>(id: nat, e: EssayPrompts, m: nat, temps: seq<T>, outputs: seq<string>): (r: seq<Row<T>>)
    requires m < PromptCount(e) && |outputs| == |temps|
    ensures |r| == |temps|
    ensures forall k :: 0 <= k < |r| ==> r[k].temp == temps[k] && r[k].predOutput == outputs[k]
  {
    seq(|temps|, k requires 0 <= k < |temps| =>
      Row(id, e.prompts[m], e.promptsShort[m], e.actualOutputs[m], temps[k], outputs[k]))
  }

  /** The rows appended for the first m passages of the essay numbered id; the first failing
      driver call ends the run with its error. */
  function EssayRows<T>(driver: Driver, temps: seq<T>, id: nat, e: EssayPrompts, m: nat): (r: Result<seq<Row<T>>, GenError>)
    requires SweepSized(driver, temps) && m <= PromptCount(e)
    ensures r.Success? ==> |r.value| == m * |temps|
  {
    if m == 0 then Success([])
    else
      MulSucc(|temps|, m - 1);
      match EssayRows(driver, temps, id, e, m - 1)
      case Failure(err) => Failure(err)
      case Success(prev) =>
        match driver(e.prompts[m - 1], e.actualOutputs[m - 1])
        case Failure(err) => Failure(err)
        case Success(outputs) => Success(prev + PromptRows(id, e, m - 1, temps, outputs))
  }

  /** The sum of the passage counts of the first n essays. */
  function TotalPrompts(essays: seq<EssayPrompts>, n: nat): nat
    requires n <= |essays|
  {
    if n == 0 then 0 else TotalPrompts(essays, n - 1) + PromptCount(essays[n - 1])
  }

  /** The results table after the first n essays; the essays are numbered from 1. */
  function RunRows<T>(driver: Driver, temps: seq<T>, essays: seq<EssayPrompts>, n: nat): (r: Result<seq<Row<T>>, GenError>)
    requires SweepSized(driver, temps) && n <= |essays|
    ensures r.Success? ==> |r.value| == TotalPrompts(essays, n) * |temps|
  {
    if n == 0 then Success([])
    else
      AddMul(TotalPrompts(essays, n - 1), PromptCount(essays[n - 1]), |temps|);
      match RunRows(driver, temps, essays, n - 1)
      case Failure(err) => Failure(err)
      case Success(prev) =>
        match EssayRows(driver, temps, n, essays[n - 1], PromptCount(essays[n - 1]))
        case Failure(err) => Failure(err)
        case Success(rows) => Success(prev + rows)
  }

  /** Once the rows of an essay fail, the rows of any longer prefix of its passages fail the same way. */
  lemma {:induction false} EssayRowsFailureSticks<T>(driver: Driver, temps: seq<T>, id: nat, e: EssayPrompts, m: nat, m': nat)
    requires SweepSized(driver, temps) && m <= m' <= PromptCount(e) && EssayRows(driver, temps, id, e, m).Failure?
    ensures EssayRows(driver, temps, id, e, m') == EssayRows(driver, temps, id, e, m)
    decreases m' - m
  {
    if m < m' {
      EssayRowsFailureSticks(driver, temps, id, e, m, m' - 1);
    }
  }

  /** Once the table fails, it fails the same way after any later essay. */
  lemma {:induction false} RunRowsFailureSticks<T>(driver: Driver, temps: seq<T>, essays: seq<EssayPrompts>, n: nat, n': nat)
    requires SweepSized(driver, temps) && n <= n' <= |essays| && RunRows(driver, temps, essays, n).Failure?
    ensures RunRows(driver, temps, essays, n') == RunRows(driver, temps, essays, n)
    decreases n' - n
  {
    if n < n' {
      RunRowsFailureSticks(driver, temps, essays, n, n' - 1);
    }
  }

  /** `rows` are the rows of the first m passages of essay e, numbered id: row a holds passage
      a / L at temperature a % L, next to the output the driver generated there (L the number of
      temperatures). */
  ghost predicate IsPassageTable<T>(rows: seq<Row<T>>, driver: Driver, temps: seq<T>, id: nat, e: EssayPrompts, m: nat)
    requires SweepSized(driver, temps) && m <= PromptCount(e)
  {
    && |rows| == m * |temps|
    && forall a :: 0 <= a < |rows| ==>
         && 0 < |temps| && a / |temps| < m
         && driver(e.prompts[a / |temps|], e.actualOutputs[a / |temps|]).Success?
         && rows[a] == Row(id, e.prompts[a / |temps|], e.promptsShort[a / |temps|], e.actualOutputs[a / |temps|],
                           temps[a % |temps|],
                           driver(e.prompts[a / |temps|], e.actualOutputs[a / |temps|]).value[a % |temps|])
  }

  /** The rows of an essay exist exactly when the driver succeeds on each of its passages. */
  lemma {:induction false} EssayRowsSucceeds<T>(driver: Driver, temps: seq<T>, id: nat, e: EssayPrompts, m: nat)
    requires SweepSized(driver, temps) && m <= PromptCount(e)
    ensures EssayRows(driver, temps, id, e, m).Success? <==>
              forall j :: 0 <= j < m ==> driver(e.prompts[j], e.actualOutputs[j]).Success?
  {
    if m > 0 {
      EssayRowsSucceeds(driver, temps, id, e, m - 1);
    }
  }

  /** The rows of an essay, when they exist, are one per passage and temperature, passage by
      passage and, within a passage, in the order of the sweep. */
  lemma {:induction false} EssayRowsShape<T>(driver: Driver, temps: seq<T>, id: nat, e: EssayPrompts, m: nat)
    requires SweepSized(driver, temps) && m <= PromptCount(e)
    ensures EssayRows(driver, temps, id, e, m).Success? ==>
              IsPassageTable(EssayRows(driver, temps, id, e, m).value, driver, temps, id, e, m)
  {
    if m > 0 && EssayRows(driver, temps, id, e, m).Success? {
      EssayRowsShape(driver, temps, id, e, m - 1);
      var prev := EssayRows(driver, temps, id, e, m - 1).value;
      var outputs := driver(e.prompts[m - 1], e.actualOutputs[m - 1]).value;
      assert EssayRows(driver, temps, id, e, m).value == prev + PromptRows(id, e, m - 1, temps, outputs);
      AppendPassage(driver, temps, id, e, m, prev, outputs);
    }
  }

  /** Appending the rows of passage m - 1 to the rows of the passages before it. */
  lemma AppendPassage<T>(driver: Driver, temps: seq<T>, id: nat, e: EssayPrompts, m: nat,
                         prev: seq<Row<T>>, outputs: seq<string>)
    requires SweepSized(driver, temps) && 0 < m <= PromptCount(e)
    requires IsPassageTable(prev, driver, temps, id, e, m - 1)
    requires driver(e.prompts[m - 1], e.actualOutputs[m - 1]) == Success(outputs)
    ensures IsPassageTable(prev + PromptRows(id, e, m - 1, temps, outputs), driver, temps, id, e, m)
  {
    var L := |temps|;
    var rows := prev + PromptRows(id, e, m - 1, temps, outputs);
    MulSucc(L, m - 1);
    forall a | 0 <= a < |rows|
      ensures 0 < L && a / L < m
      ensures driver(e.prompts[a / L], e.actualOutputs[a / L]).Success?
      ensures rows[a] == Row(id, e.prompts[a / L], e.promptsShort[a / L], e.actualOutputs[a / L],
                             temps[a % L], driver(e.prompts[a / L], e.actualOutputs[a / L]).value[a % L])
    {
      if a >= |prev| {
        var k := a - |prev|;
        assert a == (m - 1) * L + k;
        DivModUnique(a, L, m - 1, k);
      }
    }
  }

  /** One more block of length L. */
  lemma MulSucc(L: nat, m: nat)
    ensures (m + 1) * L == m * L + L
  {
  }

  /** Two runs of blocks of length L side by side. */
  lemma AddMul(P: nat, C: nat, L: nat)
    ensures (P + C) * L == P * L + C * L
  {
  }

  /** Quotient and remainder are determined by the division equation. */
  lemma DivModUnique(a: int, L: int, q: int, r: int)
    requires L > 0 && a == q * L + r && 0 <= r < L
    ensures a / L == q && a % L == r
  {
    var q', r' := a / L, a % L;
    assert a == q' * L + r';
    var d := q - q';
    assert d * L == q * L - q' * L;
    assert d * L == r' - r;
  }

  /** Skipping whole blocks of length L keeps the remainder and lowers the quotient. */
  lemma BlockShift(a: nat, L: nat, P: nat)
    requires L > 0 && a >= L * P
    ensures (a - L * P) % L == a % L && (a - L * P) / L == a / L - P
  {
    var x := a - L * P;
    assert x == (x / L) * L + x % L;
    assert a == (x / L + P) * L + x % L;
    DivModUnique(a, L, x / L + P, x % L);
  }

  /** The table exists exactly when the driver succeeds on every passage of every essay. */
  lemma {:induction false} RunRowsSucceeds<T>(driver: Driver, temps: seq<T>, essays: seq<EssayPrompts>, n: nat)
    requires SweepSized(driver, temps) && n <= |essays|
    ensures RunRows(driver, temps, essays, n).Success? <==>
              forall i, j :: 0 <= i < n && 0 <= j < PromptCount(essays[i]) ==>
                driver(essays[i].prompts[j], essays[i].actualOutputs[j]).Success?
  {
    if n > 0 {
      RunRowsSucceeds(driver, temps, essays, n - 1);
      var e := essays[n - 1];
      EssayRowsSucceeds(driver, temps, n, e, PromptCount(e));
      forall i, j | 0 <= i < n && 0 <= j < PromptCount(essays[i])
        && !driver(essays[i].prompts[j], essays[i].actualOutputs[j]).Success?
        ensures RunRows(driver, temps, essays, n).Failure?
      {
        if i < n - 1 {
          assert RunRows(driver, temps, essays, n - 1).Failure?;
        } else {
          assert EssayRows(driver, temps, n, e, PromptCount(e)).Failure?;
        }
      }
    }
  }

  /** A successful table has one row per passage and temperature, its temperature column repeats
      the sweep in order, and its essay column lies between 1 and n and never goes down. Where
      each passage's rows lie is stated by RunRowsAt. */
  lemma {:induction false} RunRowsShape<T>(driver: Driver, temps: seq<T>, essays: seq<EssayPrompts>, n: nat)
    requires SweepSized(driver, temps) && n <= |essays|
    ensures RunRows(driver, temps, essays, n).Success? ==>
              var rows, L := RunRows(driver, temps, essays, n).value, |temps|;
              && |rows| == TotalPrompts(essays, n) * L
              && (forall a :: 0 <= a < |rows| ==> 0 < L && rows[a].temp == temps[a % L])
              && (forall a :: 0 <= a < |rows| ==> 1 <= rows[a].essay <= n)
              && (forall a, b :: 0 <= a <= b < |rows| ==> rows[a].essay <= rows[b].essay)
  {
    if n > 0 && RunRows(driver, temps, essays, n).Success? {
      RunRowsShape(driver, temps, essays, n - 1);
      var e := essays[n - 1];
      EssayRowsShape(driver, temps, n, e, PromptCount(e));
      var prev: seq<Row<T>> := RunRows(driver, temps, essays, n - 1).value;
      var block: seq<Row<T>> := EssayRows(driver, temps, n, e, PromptCount(e)).value;
      assert RunRows(driver, temps, essays, n).value == prev + block;
      AppendEssayBlock(prev, block, temps, TotalPrompts(essays, n - 1), PromptCount(e), n);
    }
  }

  /** Row (P + j) * L + t of `rows` is the row for passage j of essay i (counting from 0) at
      temperature t, where P is the number of passages of the essays before it and L the number
      of temperatures: it carries the essay's number i + 1, the passage's three texts, the
      temperature and the driver's output at it. */
  ghost predicate PlacedRow<T>(rows: seq<Row<T>>, driver: Driver, temps: seq<T>, essays: seq<EssayPrompts>,
                               i: nat, j: nat, t: nat)
    requires SweepSized(driver, temps) && i < |essays| && j < PromptCount(essays[i]) && t < |temps|
  {
    var a, e := (TotalPrompts(essays, i) + j) * |temps| + t, essays[i];
    && a < |rows|
    && driver(e.prompts[j], e.actualOutputs[j]).Success?
    && rows[a] == Row(i + 1, e.prompts[j], e.promptsShort[j], e.actualOutputs[j],
                      temps[t], driver(e.prompts[j], e.actualOutputs[j]).value[t])
  }

  /** Where each row lies: every passage of every essay at every temperature has its row in the
      table, at the place PlacedRow gives. So the table lists the essays in order, the passages
      of each in order, and the sweep of each passage in order. */
  lemma {:induction false} RunRowsAt<T>(driver: Driver, temps: seq<T>, essays: seq<EssayPrompts>, n: nat,
                                        i: nat, j: nat, t: nat)
    requires SweepSized(driver, temps) && n <= |essays| && RunRows(driver, temps, essays, n).Success?
    requires i < n && j < PromptCount(essays[i]) && t < |temps|
    ensures PlacedRow(RunRows(driver, temps, essays, n).value, driver, temps, essays, i, j, t)
    decreases n
  {
    var prev := RunRows(driver, temps, essays, n - 1);
    var e := essays[n - 1];
    var block := EssayRows(driver, temps, n, e, PromptCount(e));
    assert prev.Success? && block.Success?;
    assert RunRows(driver, temps, essays, n).value == prev.value + block.value;
    if i < n - 1 {
      RunRowsAt(driver, temps, essays, n - 1, i, j, t);
      PlacedRowExtend(prev.value, block.value, driver, temps, essays, i, j, t);
    } else {
      EssayRowsShape(driver, temps, n, e, PromptCount(e));
      PassageRowAt(block.value, driver, temps, n, e, j, t);
      BlockRowAt(driver, temps, essays, i, prev.value, block.value, j, t);
    }
  }

  /** Appending rows keeps every row where it was. */
  lemma PlacedRowExtend<T>(prev: seq<Row<T>>, block: seq<Row<T>>, driver: Driver, temps: seq<T>,
                           essays: seq<EssayPrompts>, i: nat, j: nat, t: nat)
    requires SweepSized(driver, temps) && i < |essays| && j < PromptCount(essays[i]) && t < |temps|
    requires PlacedRow(prev, driver, temps, essays, i, j, t)
    ensures PlacedRow(prev + block, driver, temps, essays, i, j, t)
  {
    var a := (TotalPrompts(essays, i) + j) * |temps| + t;
    assert (prev + block)[a] == prev[a];
  }

  /** Row t of passage j in an essay's rows. */
  lemma PassageRowAt<T>(block: seq<Row<T>>, driver: Driver, temps: seq<T>, id: nat, e: EssayPrompts, j: nat, t: nat)
    requires SweepSized(driver, temps) && j < PromptCount(e) && t < |temps|
    requires IsPassageTable(block, driver, temps, id, e, PromptCount(e))
    ensures j * |temps| + t < |block|
    ensures driver(e.prompts[j], e.actualOutputs[j]).Success?
    ensures block[j * |temps| + t] == Row(id, e.prompts[j], e.promptsShort[j], e.actualOutputs[j],
                                          temps[t], driver(e.prompts[j], e.actualOutputs[j]).value[t])
  {
    var L := |temps|;
    BlockIndex(0, j, t, L, PromptCount(e));
    var b := j * L + t;
    assert b < |block| && b / L == j && b % L == t;
  }

  /** Row t of passage j of essay i, in the essay's rows appended after the rows of the essays
      before it. */
  lemma BlockRowAt<T>(driver: Driver, temps: seq<T>, essays: seq<EssayPrompts>, i: nat,
                      prev: seq<Row<T>>, block: seq<Row<T>>, j: nat, t: nat)
    requires SweepSized(driver, temps) && i < |essays| && j < PromptCount(essays[i]) && t < |temps|
    requires j * |temps| + t < |block|
    requires driver(essays[i].prompts[j], essays[i].actualOutputs[j]).Success?
    requires block[j * |temps| + t]
             == Row(i + 1, essays[i].prompts[j], essays[i].promptsShort[j], essays[i].actualOutputs[j],
                    temps[t], driver(essays[i].prompts[j], essays[i].actualOutputs[j]).value[t])
    requires |prev| == TotalPrompts(essays, i) * |temps|
    ensures PlacedRow(prev + block, driver, temps, essays, i, j, t)
  {
    BlockIndex(TotalPrompts(essays, i), j, t, |temps|, PromptCount(essays[i]));
    assert (prev + block)[|prev| + (j * |temps| + t)] == block[j * |temps| + t];
  }

  /** Row t of passage j, after P passages, in blocks of length L. */
  lemma BlockIndex(P: nat, j: nat, t: nat, L: nat, C: nat)
    requires j < C && t < L
    ensures (P + j) * L + t == P * L + (j * L + t)
    ensures j * L + t < C * L
    ensures (j * L + t) / L == j && (j * L + t) % L == t
  {
    AddMul(P, j, L);
    AddMul(j + 1, C - j - 1, L);
    MulSucc(L, j);
    DivModUnique(j * L + t, L, j, t);
  }

  /** Appending the rows of essay n, a whole number of sweeps long, to a table of the first n - 1
      essays keeps the table's shape. */
  lemma AppendEssayBlock<T>(prev: seq<Row<T>>, block: seq<Row<T>>, temps: seq<T>, P: nat, C: nat, n: nat)
    requires n > 0
    requires |prev| == P * |temps| && |block| == C * |temps|
    requires forall a :: 0 <= a < |prev| ==> 0 < |temps| && prev[a].temp == temps[a % |temps|]
    requires forall a :: 0 <= a < |prev| ==> 1 <= prev[a].essay <= n - 1
    requires forall a, b :: 0 <= a <= b < |prev| ==> prev[a].essay <= prev[b].essay
    requires forall a :: 0 <= a < |block| ==> 0 < |temps| && block[a].temp == temps[a % |temps|]
    requires forall a :: 0 <= a < |block| ==> block[a].essay == n
    ensures |prev + block| == (P + C) * |temps|
    ensures forall a :: 0 <= a < |prev + block| ==> 0 < |temps| && (prev + block)[a].temp == temps[a % |temps|]
    ensures forall a :: 0 <= a < |prev + block| ==> 1 <= (prev + block)[a].essay <= n
    ensures forall a, b :: 0 <= a <= b < |prev + block| ==> (prev + block)[a].essay <= (prev + block)[b].essay
  {
    var rows, L := prev + block, |temps|;
    AddMul(P, C, L);
    forall a | 0 <= a < |rows|
      ensures 0 < L && rows[a].temp == temps[a % L]
    {
      if a >= |prev| {
        BlockShift(a, L, P);
        assert rows[a] == block[a - L * P];
      }
    }
  }

  /** A passage whose outputs exist adds its rows to the essay's rows. */
  lemma EssayRowsStep<T>(driver: Driver, temps: seq<T>, id: nat, e: EssayPrompts, m: nat, outputs: seq<string>)
    requires SweepSized(driver, temps) && m < PromptCount(e)
    requires EssayRows(driver, temps, id, e, m).Success?
    requires driver(e.prompts[m], e.actualOutputs[m]) == Success(outputs)
    ensures |outputs| == |temps|
    ensures EssayRows(driver, temps, id, e, m + 1)
            == Success(EssayRows(driver, temps, id, e, m).value + PromptRows(id, e, m, temps, outputs))
  {
  }

  /** An essay whose rows exist adds them to the table. */
  lemma RunRowsStep<T>(driver: Driver, temps: seq<T>, essays: seq<EssayPrompts>, n: nat)
    requires SweepSized(driver, temps) && n < |essays|
    requires RunRows(driver, temps, essays, n).Success?
    requires EssayRows(driver, temps, n + 1, essays[n], PromptCount(essays[n])).Success?
    ensures RunRows(driver, temps, essays, n + 1)
            == Success(RunRows(driver, temps, essays, n).value
                       + EssayRows(driver, temps, n + 1, essays[n], PromptCount(essays[n])).value)
  {
  }

  /** The call of `generate_text` that `run` makes for one passage, with the experiment's sweep,
      options and model. */
  method GeneratePassage<T>(x: Experiment<T>, prompt: string, actualOutput: string, ghost driver: Driver)
    returns (outputs: Result<seq<string>, GenError>)
    requires DrivesLike(driver, x)
    ensures outputs == driver(prompt, actualOutput)
  {
    outputs := GenerateText(prompt, actualOutput, Some(x.temperatures), x.kwargs, x.tokenCount, x.generate);
  }

  /** The inner loop of `run` for essay number id: every passage is given to the driver with the
      whole temperature sweep, and its rows are appended, passage by passage. A driver error ends
      the loop. */
  method RunEssay<T>(x: Experiment<T>, id: nat, essay: EssayPrompts, ghost driver: Driver)
    returns (r: Result<seq<Row<T>>, GenError>)
    requires DrivesLike(driver, x) && SweepSized(driver, x.temperatures)
    ensures r == EssayRows(driver, x.temperatures, id, essay, PromptCount(essay))
  {
    var prompts, actualOutputs := essay.prompts, essay.actualOutputs;
    var results: seq<Row<T>> := [];
    for m := 0 to PromptCount(essay)
      invariant EssayRows(driver, x.temperatures, id, essay, m) == Success(results)
      invariant |results| == m * |x.temperatures|
    {
      var predOutputs := GeneratePassage(x, prompts[m], actualOutputs[m], driver);
      if predOutputs.Failure? {
        EssayRowsFailureSticks(driver, x.temperatures, id, essay, m + 1, PromptCount(essay));
        return Failure(predOutputs.error);
      }
      EssayRowsStep(driver, x.temperatures, id, essay, m, predOutputs.value);
      MulSucc(|x.temperatures|, m);
      var promptResults := PromptRows(id, essay, m, x.temperatures, predOutputs.value);
      results := results + promptResults;
    }
    return Success(results);
  }

  /** `run`: the essays are numbered from 1 in order and the rows of each are appended to the
      table. A driver error ends the run. */
  method Run<T>(x: Experiment<T>, essays: seq<EssayPrompts>, ghost driver: Driver)
    returns (r: Result<seq<Row<T>>, GenError>)
    requires DrivesLike(driver, x)
    ensures SweepSized(driver, x.temperatures)
    ensures r == RunRows(driver, x.temperatures, essays, |essays|)
  {
    DriverSized(driver, x);
    var results: seq<Row<T>> := [];
    for n := 0 to |essays|
      invariant RunRows(driver, x.temperatures, essays, n) == Success(results)
    {
      var essayResults := RunEssay(x, n + 1, essays[n], driver);
      if essayResults.Failure? {
        RunRowsFailureSticks(driver, x.temperatures, essays, n + 1, |essays|);
        return Failure(essayResults.error);
      }
      RunRowsStep(driver, x.temperatures, essays, n);
      results := results + essayResults.value;
    }
    return Success(results);
  }
}
