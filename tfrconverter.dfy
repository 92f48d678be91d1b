/**
 * Conversion of a tokenised corpus into training examples (hw1/tfrconverter.py).
 * The vocabulary file is turned into a table from word to line number, each
 * sentence into the list of its word ids (0 for a word the table lacks) with a
 * `len` feature beside it, and every entry of the file list into an input path
 * and an output path.
 */
module TfrConverter {
  import opened Slices

  // ---------------------------------------------------------------------------
  // Reading the vocabulary: `v.strip('\n')` on every line
  // ---------------------------------------------------------------------------

  /** Removes every leading occurrence of c. */
  function StripLeading(s: string, c: char): (r: string)
    ensures |r| <= |s| && r == s[|s| - |r|..]
    ensures forall j :: 0 <= j < |s| - |r| ==> s[j] == c
    ensures r == [] || r[0] != c
  {
    if |s| > 0 && s[0] == c then StripLeading(s[1..], c) else s
  }

  /** Removes every trailing occurrence of c. */
  function StripTrailing(s: string, c: char): (r: string)
    ensures r <= s
    ensures forall j :: |r| <= j < |s| ==> s[j] == c
    ensures r == [] || r[|r| - 1] != c
  {
    if |s| > 0 && s[|s| - 1] == c then StripTrailing(s[..|s| - 1], c) else s
  }

  /**
   * Python's `s.strip(c)`: the part of s left after removing c from both ends.
   * What is removed, before and after, consists of c only, and what is kept
   * neither starts nor ends with c.
   */
  function Strip(s: string, c: char): (r: string)
    ensures r == [] || (r[0] != c && r[|r| - 1] != c)
    ensures var i := |s| - |StripLeading(s, c)|;
            && i + |r| <= |s| && r == s[i..i + |r|]
            && (forall j :: 0 <= j < i ==> s[j] == c)
            && (forall j :: i + |r| <= j < |s| ==> s[j] == c)
  {
    var t := StripLeading(s, c);
    var r := StripTrailing(t, c);
    assert |t| <= |s| && t == s[|s| - |t|..];
    assert r <= t && forall j :: |r| <= j < |t| ==> t[j] == c;
    StripBothEnds(s, c, t, r);
    r
  }

  lemma StripBothEnds(s: string, c: char, t: string, r: string)
    requires |t| <= |s| && t == s[|s| - |t|..]
    requires r <= t && forall j :: |r| <= j < |t| ==> t[j] == c
    ensures var i := |s| - |t|;
            && i + |r| <= |s| && r == s[i..i + |r|]
            && (forall j :: i + |r| <= j < |s| ==> s[j] == c)
  {
    var i := |s| - |t|;
    assert r == t[..|r|];
    forall j | i + |r| <= j < |s| ensures s[j] == c {
      assert s[j] == t[j - i];
    }
  }

  /** A vocabulary line as `readlines` yields it: the word followed by its newline. */
  lemma StripRecoversWord(w: string)
    requires '\n' !in w
    ensures Strip(w + "\n", '\n') == w
    ensures Strip(w, '\n') == w
  {
    var s := w + "\n";
    var r := Strip(s, '\n');
    var i := |s| - |StripLeading(s, '\n')|;
    if w == [] {
      assert s == "\n";
    } else {
      assert s[0] == w[0] && s[0] != '\n';
      assert s[|w| - 1] == w[|w| - 1] && s[|w| - 1] != '\n';
      assert s[|w|] == '\n';
      assert i == 0;
      assert |r| <= |w| by {
        assert r[|r| - 1] == s[|r| - 1];
      }
      assert r == s[..|r|];
      assert s[..|w|] == w;
    }
  }

  /** Every vocabulary line with its newlines stripped. */
  function StripLines(lines: seq<string>): (words: seq<string>)
    ensures |words| == |lines|
    ensures forall k :: 0 <= k < |lines| ==> words[k] == Strip(lines[k], '\n')
  {
    seq(|lines|, k requires 0 <= k < |lines| => Strip(lines[k], '\n'))
  }

  // ---------------------------------------------------------------------------
  // The vocabulary table (lines 21-27)
  // ---------------------------------------------------------------------------

  /** Word w is on line i and on no later line. */
  ghost predicate IsLastIndex(words: seq<string>, w: string, i: int)
  {
    0 <= i < |words| && words[i] == w && forall j :: i < j < |words| ==> words[j] != w
  }

  /**
   * The table the build loop produces: its keys are exactly the words, and
   * each word maps to the last line it appears on.
   */
  ghost predicate IsVocabTable(words: seq<string>, table: map<string, int>)
  {
    && (forall w :: w in table <==> w in words)
    && (forall w | w in table :: IsLastIndex(words, w, table[w]))
  }

  /**
   * Builds the table from the raw lines of the vocabulary file: every stripped
   * line becomes a key, later lines overwrite earlier ones, and the counter
   * ends at the number of lines.
   */
  method BuildVocabTable(lines: seq<string>) returns (table: map<string, int>, count: int)
    ensures count == |lines|
    ensures IsVocabTable(StripLines(lines), table)
  {
    var words := StripLines(lines);
    table := map[];
    count := 0;
    while count < |words|
      invariant 0 <= count <= |words|
      invariant IsVocabTable(words[..count], table)
    {
      var w := words[count];
      assert words[..count + 1] == words[..count] + [w];
      AddWord(words[..count], w, table);
      table := table[w := count];
      count := count + 1;
    }
    assert words[..count] == words;
  }

  /** One step of the build loop: the next line's word is bound to the next index. */
  lemma AddWord(done: seq<string>, w: string, table: map<string, int>)
    requires IsVocabTable(done, table)
    ensures IsVocabTable(done + [w], table[w := |done|])
  {
    var words := done + [w];
    var t := table[w := |done|];
    forall u | u in t
      ensures IsLastIndex(words, u, t[u])
    {
      if u != w {
        assert IsLastIndex(done, u, table[u]);
        assert words[|done|] == w;
      }
    }
    forall u
      ensures u in t <==> u in words
    {
      assert u in words <==> u in done || u == w;
    }
  }

  /** With no word repeated, the word on line k maps to k. */
  lemma DistinctWordsMapToTheirLine(words: seq<string>, table: map<string, int>, k: int)
    requires IsVocabTable(words, table)
    requires forall i, j :: 0 <= i < j < |words| ==> words[i] != words[j]
    requires 0 <= k < |words|
    ensures words[k] in table && table[words[k]] == k
  {
    assert words[k] in table;
    assert IsLastIndex(words, words[k], table[words[k]]);
  }

  /** A repeated word keeps the index of its last occurrence: earlier lines lose. */
  lemma RepeatedWordKeepsLastLine(words: seq<string>, table: map<string, int>, i: int, j: int)
    requires IsVocabTable(words, table)
    requires 0 <= i < j < |words| && words[i] == words[j]
    ensures words[i] in table && table[words[i]] >= j && table[words[i]] != i
  {
    assert words[i] in table;
    assert IsLastIndex(words, words[i], table[words[i]]);
  }

  /** The words of a list with no repetition are as many as its lines. */
  lemma {:induction false} DistinctWordCount(words: seq<string>)
    requires forall i, j :: 0 <= i < j < |words| ==> words[i] != words[j]
    ensures |set w | w in words| == |words|
  {
    if words != [] {
      var rest := words[..|words| - 1];
      var last := words[|words| - 1];
      DistinctWordCount(rest);
      assert last !in rest;
      assert (set w | w in words) == (set w | w in rest) + {last};
    }
  }

  /** With no word repeated, the table has one entry per vocabulary line. */
  lemma DistinctVocabSize(words: seq<string>, table: map<string, int>)
    requires IsVocabTable(words, table)
    requires forall i, j :: 0 <= i < j < |words| ==> words[i] != words[j]
    ensures |table| == |words|
  {
    assert table.Keys == set w | w in words;
    DistinctWordCount(words);
  }

  // ---------------------------------------------------------------------------
  // Encoding a sentence (lines 36-42) and its example record (lines 43-50)
  // ---------------------------------------------------------------------------

  /** The id a token gets: its table entry, or 0 when the table lacks it. */
  function IdOf(table: map<string, int>, w: string): int
  {
    if w in table then table[w] else 0
  }

  /** Appends one id per token, in token order. */
  method EncodeSentence(table: map<string, int>, tokens: seq<string>) returns (ids: seq<int>)
    ensures |ids| == |tokens|
    ensures forall i :: 0 <= i < |tokens| && tokens[i] in table ==> ids[i] == table[tokens[i]]
    ensures forall i :: 0 <= i < |tokens| && tokens[i] !in table ==> ids[i] == 0
  {
    ids := [];
    var k := 0;
    while k < |tokens|
      invariant 0 <= k <= |tokens|
      invariant |ids| == k
      invariant forall i :: 0 <= i < k ==> ids[i] == IdOf(table, tokens[i])
    {
      var w := tokens[k];
      if w in table {
        ids := ids + [table[w]];
      } else {
        ids := ids + [0];
      }
      k := k + 1;
    }
  }

  /** ids is the encoding of tokens under table, position by position. */
  ghost predicate Encodes(table: map<string, int>, tokens: seq<string>, ids: seq<int>)
  {
    |ids| == |tokens| && forall i :: 0 <= i < |tokens| ==> ids[i] == IdOf(table, tokens[i])
  }

  /**
   * Every id indexes a vocabulary line (so a row of an embedding matrix with
   * one row per line), and for a token in the vocabulary that line holds the
   * token itself, so a sentence whose tokens are all in the vocabulary reads
   * back from its ids. An unknown token reads back as the word on line 0.
   */
  lemma EncodedIdsDecode(words: seq<string>, table: map<string, int>, tokens: seq<string>, ids: seq<int>)
    requires IsVocabTable(words, table)
    requires |words| > 0
    requires Encodes(table, tokens, ids)
    ensures forall i :: 0 <= i < |ids| ==> 0 <= ids[i] < |words|
    ensures forall i :: 0 <= i < |ids| && tokens[i] in words ==> words[ids[i]] == tokens[i]
  {
    forall i | 0 <= i < |ids|
      ensures 0 <= ids[i] < |words|
      ensures tokens[i] in words ==> words[ids[i]] == tokens[i]
    {
      if tokens[i] in table {
        assert IsLastIndex(words, tokens[i], table[tokens[i]]);
      }
    }
  }

  /**
   * Id 0 is shared: an unknown token and the word on line 0 (when it appears
   * nowhere else) are encoded alike, so the encoding is not injective.
   */
  lemma UnknownCollidesWithFirstWord(words: seq<string>, table: map<string, int>, u: string)
    requires IsVocabTable(words, table)
    requires |words| > 0 && forall j :: 0 < j < |words| ==> words[j] != words[0]
    requires u !in words
    ensures IdOf(table, u) == IdOf(table, words[0]) == 0
  {
    assert words[0] in table;
    assert IsLastIndex(words, words[0], table[words[0]]);
  }

  /** One serialised example: the id list and the `len` feature. */
  datatype Example = Example(content: seq<int>, len: seq<int>)

  /** Encodes a tokenised sentence and pairs it with its length. */
  method ConvertSentence(table: map<string, int>, tokens: seq<string>) returns (ex: Example)
    ensures ex.len == [|tokens|] && ex.len == [|ex.content|]
    ensures Encodes(table, tokens, ex.content)
  {
    var ids := EncodeSentence(table, tokens);
    ex := Example(ids, [|ids|]);
  }

  // ---------------------------------------------------------------------------
  // File names (lines 31 and 33)
  // ---------------------------------------------------------------------------

  /** The input path: the list entry without its final character (the newline). */
  function InputPath(entry: string): (p: string)
    ensures p <= entry
    ensures |p| == if |entry| == 0 then 0 else |entry| - 1
  {
    DropLast(entry, 1)
  }

  /** The output path: the entry without its last five characters, under the output directory. */
  function OutputPath(outputDir: string, entry: string): (p: string)
    ensures |p| == |outputDir| + 1 + (if |entry| < 5 then 0 else |entry| - 5)
    ensures p[..|outputDir| + 1] == outputDir + "/"
    ensures p[|outputDir| + 1..] <= entry
  {
    var p := outputDir + "/" + DropLast(entry, 5);
    assert p[|outputDir| + 1..] == DropLast(entry, 5);
    p
  }

  /**
   * For an entry `stem` + a four-character extension + newline, the input is
   * the file name itself and the output is the stem under output_dir.
   */
  lemma ListEntryPaths(outputDir: string, stem: string, ext: string)
    requires |ext| == 4
    ensures InputPath(stem + ext + "\n") == stem + ext
    ensures OutputPath(outputDir, stem + ext + "\n") == outputDir + "/" + stem
  {
    var e := stem + ext + "\n";
    assert DropLast(e, 1) == e[..|e| - 1] == stem + ext;
    assert DropLast(e, 5) == e[..|e| - 5] == stem;
  }

  /** An entry without a trailing newline (a last line left unterminated) loses a real character. */
  lemma UnterminatedEntryLosesCharacter()
    ensures InputPath("train.txt") == "train.tx"
  {
    assert DropLast("train.txt", 1) == "train.txt"[..8];
  }
}
