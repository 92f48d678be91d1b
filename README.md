# Verified model of the MLDS2017 coursework scripts

The repository holds three experiment scripts: a language model for the MSR
sentence-completion challenge (`hw1/deprnn.py`), a converter that turns a
tokenised corpus into serialised training examples (`hw1/tfrconverter.py`),
and a sequence-to-sequence video-captioning model (`hw2/S2VT_jason.py`).
Nearly all of their code builds and runs computation graphs in the numeric
framework. This project models the parts that do not depend on it and proves
their properties:

- `tfrconverter.dfy` (module `TfrConverter`): reading the vocabulary lines
  (`strip('\n')`), the loop that builds the word-to-id table, the loop that
  encodes a sentence (unknown words become 0), the `len` feature of an
  example, and the input and output paths derived from each file-list entry.
- `s2vt.dfy` (module `S2vt`): the special ids PAD/BOS/EOS/UNK, the three
  mode predicates, the shift of a caption into decoder input and target, the
  sequence-length arithmetic, the greedy decoding of a score table into
  captions (argmax per position, stop at the first EOS), and the pairing of
  captions with test ids.
- `deprnn.dfy` (module `DepRnn`): the `t_or_f` and `restricted_float`
  converters, the split of the file list into training, validation and test
  lists, the embedding-width table, the x/y shift of a token row, and the
  choice of the answer letter among five candidates.
- `common.dfy`: Python's slice and index rules (`Slices`), numpy's `argmax`
  with its first-maximum tie rule (`Scores`), and `Option`/`Result`
  (`Wrappers`).

The loops the scripts write as loops are methods with loop invariants
(`BuildVocabTable`, `EncodeSentence`, `DecodeCaptions`). Each is proved
against a specification: a predicate that says what the table means, or a
function of the inputs. The expressions and comprehensions are functions.

Where the scripts cannot run as written, the model follows their evident
meaning and says so below. `tfrconverter.py` calls `content.split()` on a
list, so the encoder takes the token list as its input. Its option `'-v,' '--vocab'` (line 15) joins into the single option string `-v,--vocab`, whose destination is `v,__vocab`, so `args.vocab` at line 23 fails and the vocabulary is never read as written; the model takes the vocabulary lines as given. `S2VT_jason.py`
reads `model.prob`, which the test model never sets, and looks words up in
an undefined `dct`, so the decoder takes the score table and the
id-to-word function as parameters.

## Model

| member | source | states |
|---|---|---|
| `TfrConverter.Strip` | hw1/tfrconverter.py:24 | `strip('\n')` removes only newlines, and only from the two ends; what is kept neither starts nor ends with one |
| `TfrConverter.StripRecoversWord` | hw1/tfrconverter.py:24 | a vocabulary line read as the word plus its newline strips back to the word |
| `TfrConverter.BuildVocabTable` | hw1/tfrconverter.py:21-27 | after the loop the counter equals the number of lines; the keys are exactly the stripped lines; each maps to the last line holding it |
| `TfrConverter.DistinctWordsMapToTheirLine` | hw1/tfrconverter.py:23-27 | with no repeated word, the word on line k (0-based) maps to k |
| `TfrConverter.RepeatedWordKeepsLastLine` | hw1/tfrconverter.py:26 | a word on lines i < j maps to a line at or after j, never to i: later assignments overwrite earlier ones |
| `TfrConverter.DistinctVocabSize` | hw1/tfrconverter.py:21-27 | with no repeated word the table has exactly as many entries as the vocabulary has lines |
| `TfrConverter.EncodeSentence` | hw1/tfrconverter.py:37-42 | one id per token, in token order; a token in the table gets its table id, any other token gets 0 |
| `TfrConverter.EncodedIdsDecode` | hw1/tfrconverter.py:37-42 | for a non-empty vocabulary every id is a valid vocabulary line; for a known token that line holds the token, so the encoding can be read back |
| `TfrConverter.UnknownCollidesWithFirstWord` | hw1/tfrconverter.py:39-42 | an unknown token and the word on line 0, when that word is on no other line, both get id 0: the encoding is not injective |
| `TfrConverter.ConvertSentence` | hw1/tfrconverter.py:43-50 | the example's `len` feature is the one-element list holding the number of tokens, which is also the length of its id list |
| `TfrConverter.InputPath` | hw1/tfrconverter.py:31 | `file_name[:-1]` is the entry without its last character; an empty entry stays empty |
| `TfrConverter.OutputPath` | hw1/tfrconverter.py:33 | the path is `output_dir`, a slash, then the entry without its last five characters (nothing when it is shorter) |
| `TfrConverter.ListEntryPaths` | hw1/tfrconverter.py:31-33 | for an entry stem + 4-character extension + newline, the input is the file name and the output is the stem under `output_dir` |
| `TfrConverter.UnterminatedEntryLosesCharacter` | hw1/tfrconverter.py:31 | an entry without a trailing newline loses a real character ("train.txt" gives "train.tx") |
| `Scores.Argmax` | hw2/S2VT_jason.py:332 | numpy `argmax`: an index holding the largest score, the first one on a tie |
| `S2vt.SpecialIdsDistinct` | hw2/S2VT_jason.py:42-45 | PAD, BOS, EOS, UNK are the distinct ids 0, 1, 2, 3 |
| `S2vt.ExactlyOneMode` | hw2/S2VT_jason.py:267-269 | modes 0, 1, 2 satisfy exactly one of `is_train`/`is_valid`/`is_test`; any other mode satisfies none |
| `S2vt.DecoderShift` | hw2/S2VT_jason.py:97-98 | input and target both have length n-1; input[j] = caption[j], target[j] = caption[j+1] = input[j+1] |
| `S2vt.FramedCaptionShift` | hw2/S2VT_jason.py:97-98 | for BOS + body + EOS with no padding (the longest caption of a batch) the input is BOS + body ("start from BOS") and the target is body + EOS ("end by EOS") |
| `S2vt.PaddedCaptionShift` | hw2/S2VT_jason.py:91-98 | a shorter caption is filled with PAD (0) by the dynamic padding; its target is body + EOS + all the padding, so it ends with PAD, and its input keeps the EOS |
| `S2vt.LengthArithmetic` | hw2/S2VT_jason.py:143-148 | sequence length = frames + caption length and total length = frames + max_caption_length - 1, per example, for any max_caption_length; the caption part of the total is the target length of a caption padded to max_caption_length |
| `S2vt.UntilEos` | hw2/S2VT_jason.py:331-334 | the result is a prefix of the ids without EOS, and it stops at the end or just before an EOS |
| `S2vt.UntilEosUnique` | hw2/S2VT_jason.py:331-336 | any EOS-free prefix that stops at the end or at an EOS is that result: the first EOS ends the caption |
| `S2vt.CaptionStopsAtFirstEos` | hw2/S2VT_jason.py:330-335 | a decoded caption holds no EOS, is no longer than the row, is the row's argmax ids in position order, and stops only where the argmax is EOS |
| `S2vt.DecodeCaptions` | hw2/S2VT_jason.py:328-337 | one caption per row, in row order; caption i is the words of row i's decoded ids |
| `S2vt.PairWithIds` | hw2/S2VT_jason.py:440-441 | record k pairs result k with id k; there are as many records as the shorter list has elements |
| `S2vt.PairingUnzips` | hw2/S2VT_jason.py:440-441 | with equally long lists, the records split back into the captions and the ids |
| `DepRnn.TOrFSpellings` | hw1/deprnn.py:33-40 | True exactly for upper-cased "", T, TR, TRU, TRUE; False exactly for F, FA, FAL, FALS, FALSE; every other string raises the --use_dep error |
| `DepRnn.TOrFIgnoresCase` | hw1/deprnn.py:33-35 | the result does not change when the argument is upper-cased first |
| `DepRnn.TOrFExamples` | hw1/deprnn.py:33-40 | "" and "true" give True, "f" gives False, "TRUEX" and "yes" raise |
| `DepRnn.RestrictedFloat` | hw1/deprnn.py:41-45 | a finite value is returned unchanged exactly when it lies in [0.0, 1.0]; infinities raise; an error carries the value |
| `DepRnn.RestrictedFloatAcceptsNaN` | hw1/deprnn.py:43 | NaN passes the check, since both comparisons with it are false |
| `DepRnn.UnitIntervalFloat` | hw1/deprnn.py:41-45 | the intended check: a value is returned exactly when it is a finite number in [0.0, 1.0] |
| `DepRnn.UnitIntervalFloatDiffersOnlyOnNaN` | hw1/deprnn.py:41-45 | the intended check agrees with the written one on every value except NaN, which it refuses |
| `DepRnn.SplitFileList` | hw1/deprnn.py:104-107 | training and validation lists concatenate back to the prefixed file list; the cut is at `default_train_num` (522); the test list is the fixed `testing_data.tfr` |
| `DepRnn.EmbedDim` | hw1/deprnn.py:110 | a width exists exactly for sources -7..6 (Python indexing), and it is one of 50, 100, 200, 300 |
| `DepRnn.EmbedDimOfChoices` | hw1/deprnn.py:50-54 | every source the option accepts (0..6) has a width; sources 1-4 give the width their GloVe file name states (50, 100, 200, 300); 0 (debug mode) gives 50; 5 and 6 (glove.42B, glove.840B) give 300; the default source gives 100 |
| `DepRnn.NextWordTargets` | hw1/deprnn.py:185-186 | for each non-empty row, x and y have length n-1, x[j] = row[j] and y[j] = row[j+1] |
| `DepRnn.AnswerLetter` | hw1/deprnn.py:276-279 | the answer is a letter 'a'..'e' whose candidate has the largest probability product, the first on a tie |
| `DepRnn.StrictlyBestCandidateIsAnswer` | hw1/deprnn.py:279 | a candidate whose product beats all four others gives the answer 'a' + its index |

## Left out

- Graph construction, training and evaluation in the numeric framework: cells, dropout, embedding lookup, `dynamic_rnn`, softmax, loss, gradient clipping, optimizers, perplexity. These are foreign library calls with floating-point numerics.
- The `raw_rnn` loop functions of `hw2/S2VT_jason.py` (lines 167-240). They do not parse: commas are missing between arguments at lines 178-179, 209-210 and 234-235. They also use names that would fail when run (`tf.zeors`, `raw_rnn`, `layer_1_output`, `output_logits`). So they have no meaning to model. One syntax error stops the whole module, so the decode loop that `S2vt.DecodeCaptions` models does not run as written either; the model follows its evident meaning.
- Reading and writing files: the vocabulary file, the file lists, serialised records, the CSV and JSON outputs, the `bleu_eval.py` call, queue runners and sessions. The models take the lines, names and tokens as parameters.
- `splitlines()` and `readlines()`: the models take the resulting lists as given.
- `TfrConverter.EncodeSentence`: takes the token list as input, because the source calls `content.split()` on a list. The per-line loop around it, with its undefined `sys` and `tqdm(len(...))`, is not modelled. The record key, written as a bare `content` in the source, is the field `content`.
- Integer widths: ids and lengths are unbounded integers; the 64-bit fields of the records are not modelled.
- `DepRnn.TOrF`: upper-casing is modelled for ASCII letters only; Python's `str.upper` also maps some other characters (for example the long s) onto letters of TRUE and FALSE.
- `DepRnn.RestrictedFloat`: takes the value after `float(x)`; parsing the string is not modelled.
- `DepRnn.AnswerLetter`: probabilities are reals and `np.prod` is an exact product. Float rounding is not modelled, including underflow to 0.0 on long sentences, which would make all candidates tie and give 'a'.
- `DepRnn.AnswerLetter`: the enclosing test loop runs `epoch_size` times and keeps only the last answer. That loop and the CSV writer around it are not modelled.
- `S2vt.DecodeCaptions`: the id-to-word table `dct`, undefined in the source, is a total function parameter, so a missing key (KeyError) is not modelled. NaN scores are not modelled.
- The collection of results over the test videos (`hw2/S2VT_jason.py:433-435`) and the selection `filenames[para.mode]` (`hw1/deprnn.py:120`) are not modelled.
- `hw1/deprnn.py:113-115` defines the same three mode predicates as `S2vt.IsTrain`, `S2vt.IsValid` and `S2vt.IsTest`, which stand for both.
- Argument-parser wiring: the defaults, `choices` checks and help texts, except where a property above cites them.

## Findings

| source | as written | input that shows it | evidently intended | confidence | as-written member | corrected member |
|---|---|---|---|---|---|---|
| hw1/deprnn.py:43 | `if x < 0.0 or x > 1.0: raise`, and every comparison with NaN is false | `--keep_prob nan` is returned as the keep probability | only numbers in [0.0, 1.0] are accepted | high that NaN passes; not executed | `DepRnn.RestrictedFloatAcceptsNaN` | `DepRnn.UnitIntervalFloat` |
