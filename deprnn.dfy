/**
 * The framework-independent parts of the language-model script
 * (hw1/deprnn.py): the two command-line value converters, the split of the
 * file list into training, validation and test lists, the embedding-width
 * table, the shift of a token row into inputs and next-word targets, and the
 * choice of the answer letter among five candidate sentences.
 */
module DepRnn {
  import opened Wrappers
  import opened Slices
  import opened Scores

  const DefaultWordvecSrc := 2
  const DefaultTrainNum := 522

  /** What the converters raise (argparse.ArgumentTypeError). */
  datatype ArgError = NotABoolean(message: string) | OutOfUnitRange(x: PyFloat)

  const UseDepMessage := "--use_dep can only be True or False!"

  // ---------------------------------------------------------------------------
  // t_or_f (lines 33-40)
  // ---------------------------------------------------------------------------

  /** `str.upper` on one character, for ASCII letters. */
  function UpperChar(ch: char): char
  {
    if 'a' <= ch <= 'z' then (ch as int - 32) as char else ch
  }

  /** `str.upper` on a string whose letters are ASCII. */
  function Upper(s: string): (u: string)
    ensures |u| == |s|
    ensures forall i :: 0 <= i < |s| ==> u[i] == UpperChar(s[i])
  {
    seq(|s|, i requires 0 <= i < |s| => UpperChar(s[i]))
  }

  /**
   * Accepts any string whose upper-case form is a prefix of "TRUE" (then
   * True) or else of "FALSE" (then False), and raises for everything else.
   */
  function TOrF(arg: string): Result<bool, ArgError>
  {
    var ua := Upper(arg);
    if ua <= "TRUE" then Ok(true)
    else if ua <= "FALSE" then Ok(false)
    else Err(NotABoolean(UseDepMessage))
  }

  /** The prefixes of a word, listed. */
  lemma {:induction false} PrefixesOfTrue(u: string)
    ensures u <= "TRUE" <==> u in {"", "T", "TR", "TRU", "TRUE"}
  {
    assert "TRUE"[..0] == "" && "TRUE"[..1] == "T" && "TRUE"[..2] == "TR" && "TRUE"[..3] == "TRU";
    assert "T" <= "TRUE" && "TR" <= "TRUE" && "TRU" <= "TRUE";
    if u <= "TRUE" {
      assert u == "TRUE"[..|u|];
      if |u| == 0 { assert u == ""; }
      else if |u| == 1 { assert u == "T"; }
      else if |u| == 2 { assert u == "TR"; }
      else if |u| == 3 { assert u == "TRU"; }
      else { assert u == "TRUE"; }
    }
  }

  lemma {:induction false} PrefixesOfFalse(u: string)
    ensures u <= "FALSE" <==> u in {"", "F", "FA", "FAL", "FALS", "FALSE"}
  {
    assert "FALSE"[..0] == "" && "FALSE"[..1] == "F" && "FALSE"[..2] == "FA";
    assert "FALSE"[..3] == "FAL" && "FALSE"[..4] == "FALS";
    assert "F" <= "FALSE" && "FA" <= "FALSE" && "FAL" <= "FALSE" && "FALS" <= "FALSE";
    if u <= "FALSE" {
      assert u == "FALSE"[..|u|];
      if |u| == 0 { assert u == ""; }
      else if |u| == 1 { assert u == "F"; }
      else if |u| == 2 { assert u == "FA"; }
      else if |u| == 3 { assert u == "FAL"; }
      else if |u| == 4 { assert u == "FALS"; }
      else { assert u == "FALSE"; }
    }
  }

  /**
   * The accepted spellings, in upper case: the empty string and the prefixes
   * of TRUE give True, the non-empty prefixes of FALSE give False, and every
   * other string is refused with the --use_dep message.
   */
  lemma TOrFSpellings(arg: string)
    ensures TOrF(arg) == Ok(true) <==> Upper(arg) in {"", "T", "TR", "TRU", "TRUE"}
    ensures TOrF(arg) == Ok(false) <==> Upper(arg) in {"F", "FA", "FAL", "FALS", "FALSE"}
    ensures TOrF(arg).Err? <==> Upper(arg) !in {"", "T", "TR", "TRU", "TRUE", "F", "FA", "FAL", "FALS", "FALSE"}
    ensures TOrF(arg).Err? ==> TOrF(arg).error == NotABoolean(UseDepMessage)
  {
    PrefixesOfTrue(Upper(arg));
    PrefixesOfFalse(Upper(arg));
  }

  /** Upper-casing first changes nothing: the matcher ignores case. */
  lemma TOrFIgnoresCase(arg: string)
    ensures TOrF(Upper(arg)) == TOrF(arg)
  {
    assert Upper(Upper(arg)) == Upper(arg);
  }

  /** Some inputs: "" and "true" give True, "f" gives False, "TRUEX" and "yes" are refused. */
  lemma TOrFExamples()
    ensures TOrF("") == Ok(true) && TOrF("true") == Ok(true) && TOrF("f") == Ok(false)
    ensures TOrF("TRUEX").Err? && TOrF("yes").Err?
  {
    assert Upper("true") == "TRUE";
    assert Upper("f") == "F";
    PrefixesOfTrue("F");
    assert Upper("TRUEX") == "TRUEX";
    assert Upper("yes") == "YES";
  }

  // ---------------------------------------------------------------------------
  // restricted_float (lines 41-45)
  // ---------------------------------------------------------------------------

  /** A Python float after `float(x)`: a finite number, an infinity or NaN. */
  datatype PyFloat = Finite(r: real) | PosInf | NegInf | NaN

  /** `x < y` in Python: false whenever x is NaN. */
  predicate Below(x: PyFloat, y: real)
  {
    match x
    case Finite(r) => r < y
    case NegInf => true
    case _ => false
  }

  /** `x > y` in Python: false whenever x is NaN. */
  predicate Above(x: PyFloat, y: real)
  {
    match x
    case Finite(r) => r > y
    case PosInf => true
    case _ => false
  }

  /** restricted_float as written: raises when x < 0.0 or x > 1.0, otherwise returns x. */
  function RestrictedFloat(x: PyFloat): (r: Result<PyFloat, ArgError>)
    ensures r.Ok? ==> r.value == x
    ensures r.Err? ==> r.error == OutOfUnitRange(x)
    ensures x.Finite? ==> (r.Ok? <==> 0.0 <= x.r <= 1.0)
    ensures x == PosInf || x == NegInf ==> r.Err?
  {
    if Below(x, 0.0) || Above(x, 1.0) then Err(OutOfUnitRange(x)) else Ok(x)
  }

  /** NaN compares false with both bounds, so the range check lets it through. */
  lemma RestrictedFloatAcceptsNaN()
    ensures RestrictedFloat(NaN) == Ok(NaN)
  {
  }

  /** The intended check: only a number in [0.0, 1.0] is returned. */
  function UnitIntervalFloat(x: PyFloat): (r: Result<PyFloat, ArgError>)
    ensures r.Ok? <==> x.Finite? && 0.0 <= x.r <= 1.0
    ensures r.Ok? ==> r.value == x
    ensures r.Err? ==> r.error == OutOfUnitRange(x)
  {
    if x.Finite? && 0.0 <= x.r <= 1.0 then Ok(x) else Err(OutOfUnitRange(x))
  }

  /** The two checks differ on NaN only. */
  lemma UnitIntervalFloatDiffersOnlyOnNaN(x: PyFloat)
    ensures x != NaN ==> UnitIntervalFloat(x) == RestrictedFloat(x)
    ensures UnitIntervalFloat(NaN).Err?
  {
  }

  // ---------------------------------------------------------------------------
  // File lists (lines 104-107) and embedding width (line 110)
  // ---------------------------------------------------------------------------

  const TestingFile := "testing_data.tfr"

  /** Every file name with the data directory in front, in list order. */
  function PrefixAll(dataDir: string, names: seq<string>): (paths: seq<string>)
    ensures |paths| == |names| && forall k :: 0 <= k < |names| ==> paths[k] == dataDir + names[k]
  {
    seq(|names|, k requires 0 <= k < |names| => dataDir + names[k])
  }

  /**
   * The training list is the first DefaultTrainNum paths (all when there are
   * fewer), the validation list the rest, and the test list the one fixed file
   * name, without the data directory in front.
   */
  function SplitFileList(dataDir: string, names: seq<string>): (lists: seq<seq<string>>)
    ensures |lists| == 3
    ensures lists[0] + lists[1] == PrefixAll(dataDir, names)
    ensures |lists[0]| == if |names| <= DefaultTrainNum then |names| else DefaultTrainNum
    ensures lists[2] == [TestingFile]
  {
    var files := PrefixAll(dataDir, names);
    TakeDrop(files, DefaultTrainNum);
    [Take(files, DefaultTrainNum), Drop(files, DefaultTrainNum), [TestingFile]]
  }

  const EmbedDims := [50, 50, 100, 200, 300, 300, 300]

  /** The embedding width looked up in the table by word-vector source, with Python's negative indices. */
  function EmbedDim(wordvecSrc: int): (d: Option<int>)
    ensures d.Some? <==> -7 <= wordvecSrc < 7
    ensures d.Some? ==> d.value in {50, 100, 200, 300}
  {
    Index(EmbedDims, wordvecSrc)
  }

  /**
   * Every source the option accepts (0 to 6) has a width. Sources 1 to 4 give
   * the width their GloVe file name states (50, 100, 200, 300); source 0, the
   * debug mode, gives 50; sources 5 and 6 (glove.42B, glove.840B) give 300.
   * The default source gives 100.
   */
  lemma EmbedDimOfChoices(wordvecSrc: int)
    requires 0 <= wordvecSrc < 7
    ensures EmbedDim(wordvecSrc).Some?
    ensures EmbedDim(0) == Some(50) && EmbedDim(1) == Some(50) && EmbedDim(2) == Some(100) && EmbedDim(3) == Some(200)
    ensures EmbedDim(4) == Some(300) && EmbedDim(5) == Some(300) && EmbedDim(6) == Some(300)
    ensures EmbedDim(DefaultWordvecSrc) == Some(100)
  {
  }

  // ---------------------------------------------------------------------------
  // Inputs and next-word targets (lines 185-186)
  // ---------------------------------------------------------------------------

  /** The inputs: every row without its last token. */
  function BatchX(batch: seq<seq<int>>): (xs: seq<seq<int>>)
    ensures |xs| == |batch|
  {
    seq(|batch|, k requires 0 <= k < |batch| => DropLast(batch[k], 1))
  }

  /** The targets: every row without its first token. */
  function BatchY(batch: seq<seq<int>>): (ys: seq<seq<int>>)
    ensures |ys| == |batch|
  {
    seq(|batch|, k requires 0 <= k < |batch| => Drop(batch[k], 1))
  }

  /**
   * For every non-empty row, x and y have one element fewer than the row,
   * x[j] is the row's word j and y[j] the word after it.
   */
  lemma NextWordTargets(batch: seq<seq<int>>)
    ensures forall k :: 0 <= k < |batch| && batch[k] != [] ==>
              |BatchX(batch)[k]| == |BatchY(batch)[k]| == |batch[k]| - 1
    ensures forall k, j :: 0 <= k < |batch| && 0 <= j < |BatchX(batch)[k]| ==>
              BatchX(batch)[k][j] == batch[k][j] && BatchY(batch)[k][j] == batch[k][j + 1]
  {
    forall k | 0 <= k < |batch| {
      ShiftAligned(batch[k]);
    }
  }

  // ---------------------------------------------------------------------------
  // Answer choice (lines 276-279)
  // ---------------------------------------------------------------------------

  /** The row of the probability table the gather reads at step j, the same row for every candidate. */
  function StepRow(j: int): int
  {
    j * 5
  }

  /**
   * The shapes the gather relies on: five candidate rows of equal length L,
   * and for each step j < L a probability row j*5 holding every candidate's
   * word id.
   */
  ghost predicate GatherDefined(prob: seq<seq<real>>, target: seq<seq<int>>)
  {
    && |target| >= 5
    && (forall k :: 0 <= k < 5 ==> |target[k]| == |target[0]|)
    && (forall j :: 0 <= j < |target[0]| ==> StepRow(j) < |prob|)
    && (forall k, j :: 0 <= k < 5 && 0 <= j < |target[0]| ==> 0 <= target[k][j] < |prob[StepRow(j)]|)
  }

  /** The gathered table: entry (k, j) is the score that row StepRow(j) gives to candidate k's word at step j. */
  function Choices(prob: seq<seq<real>>, target: seq<seq<int>>): (choices: seq<seq<real>>)
    requires GatherDefined(prob, target)
    ensures |choices| == 5
    ensures forall k :: 0 <= k < 5 ==> |choices[k]| == |target[0]|
    ensures forall k, j :: 0 <= k < 5 && 0 <= j < |target[0]| ==> choices[k][j] == prob[StepRow(j)][target[k][j]]
  {
    var n := |target[0]|;
    seq(5, k requires 0 <= k < 5 =>
      seq(n, j requires 0 <= j < n => prob[StepRow(j)][target[k][j]]))
  }

  /** `np.prod` of one row, as an exact product. */
  function Product(xs: seq<real>): real
  {
    if xs == [] then 1.0 else Product(xs[..|xs| - 1]) * xs[|xs| - 1]
  }

  /** The score of each candidate: the product of its word probabilities. */
  function CandidateScores(prob: seq<seq<real>>, target: seq<seq<int>>): (scores: seq<real>)
    requires GatherDefined(prob, target)
    ensures |scores| == 5
  {
    var choices := Choices(prob, target);
    seq(5, k requires 0 <= k < 5 => Product(choices[k]))
  }

  /**
   * `chr(ord('a') + argmax(...))`: a letter between 'a' and 'e' whose
   * candidate has the largest score, and the first such candidate on a tie.
   */
  function AnswerLetter(prob: seq<seq<real>>, target: seq<seq<int>>): (c: char)
    requires GatherDefined(prob, target)
    ensures 'a' <= c <= 'e'
    ensures var scores := CandidateScores(prob, target);
            var i := c as int - 'a' as int;
            && (forall k :: 0 <= k < 5 ==> scores[k] <= scores[i])
            && (forall k :: 0 <= k < i ==> scores[k] < scores[i])
  {
    var best := Argmax(CandidateScores(prob, target));
    ('a' as int + best) as char
  }

  /** A candidate whose score beats every other one is the answer. */
  lemma StrictlyBestCandidateIsAnswer(prob: seq<seq<real>>, target: seq<seq<int>>, i: int)
    requires GatherDefined(prob, target)
    requires 0 <= i < 5
    requires forall k :: 0 <= k < 5 && k != i ==> CandidateScores(prob, target)[k] < CandidateScores(prob, target)[i]
    ensures AnswerLetter(prob, target) == ('a' as int + i) as char
  {
    ArgmaxUnique(CandidateScores(prob, target), i);
  }
}
