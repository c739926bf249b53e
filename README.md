# Lexicon-lookup sentiment classifier, in Dafny

A model of the lexicon-based baseline of a movie-review sentiment
classifier (exercises/tick1.py). The original is Python. The model covers four
pieces:

- **Reading the lexicon.** Each line of the lexicon file is stripped of
  white space, which also removes the newline `readlines()` leaves, and split
  on single spaces. The fields are read by position: the word is the text
  after the first `=` of the first field, up to a second `=` if there is
  one, and the sentiment is read the same way from the third field. The keys
  in front of the `=` and every other field are ignored. `positive` becomes
  +1, `negative` becomes -1, and anything else raises an error. A later line
  for the same word overwrites an earlier one. The model takes the file's
  lines as a sequence of strings (module `Lexicon`). It also models the two
  Python string operations the reader uses: `str.strip()` and
  `str.split(sep)` (module `Text`).
- **The counting classifier** `predict_sentiment`. It counts the review's
  tokens with lexicon value +1 (`pos`) and with lexicon value -1 (`neg`). It
  answers 1, -1 or 0 by comparing the two counts. **The thresholded
  classifier** `predict_sentiment_improved` answers 1 only when
  `pos - neg > 7`, and -1 otherwise. Both are in module `Classifier`.
- **Accuracy** `accuracy`: the number of positions where the prediction
  equals the true label, divided by the number of predictions, and the two
  exceptions the function can raise. This is module `Evaluation`.

The loops of the source are methods with `while` loops. Each method is proved
against a recursive specification function over the processed prefix:
`ParseLines`/`Collect` for the lexicon, `Count` for the counters and
`Matches` for the accuracy counter. The promised properties are lemmas about
those functions. The exceptions of the source are `Err` values of a `Result`
type (module `Results`).

Where the documentation and the code disagree, the model follows the code.
The docstring of `predict_sentiment` says it returns +1 or -1, but the code
returns 0 when the counts are equal. The model returns 0 on a tie.

## Model

| member | source | states |
|---|---|---|
| Text.StripLeading | exercises/tick1.py:25 | the result is a suffix of the input; everything cut off is white space; the result does not start with white space |
| Text.StripTrailing | exercises/tick1.py:25 | the result is a prefix of the input; everything cut off is white space; the result does not end with white space |
| Text.Strip | exercises/tick1.py:25 | `line.strip()` neither starts nor ends with white space, and returns a line unchanged when neither end is white space |
| Text.StripPadding | exercises/tick1.py:23-25 | `line.strip()` gives back exactly the text between a line's leading and trailing white space, so the newline `readlines()` keeps is removed |
| Text.StripLeadingPadding | exercises/tick1.py:25 | the leading white space in front of text that does not start with white space is exactly what is cut |
| Text.StripTrailingPadding | exercises/tick1.py:23-25 | the trailing white space behind text that does not end with white space is exactly what is cut |
| Text.Split | exercises/tick1.py:26 | `s.split(sep)` always yields at least one piece, so `line_ls[0]` always exists |
| Text.SplitPieces | exercises/tick1.py:26-28 | no piece holds the separator, and joining the pieces with the separator gives back the input |
| Text.SplitJoin | exercises/tick1.py:26-28 | round trip: splitting a join of separator-free pieces recovers exactly those pieces |
| Lexicon.FieldValue | exercises/tick1.py:27-28 | `field.split('=')[1]` exists exactly when the field holds `=`, and the value it gives holds no `=` |
| Lexicon.FieldValueOfField | exercises/tick1.py:27-28 | `field.split('=')[1]` is exactly the text between the first and the second `=` of the field, or up to its end when there is no second `=`, whatever the key |
| Lexicon.ParseFields | exercises/tick1.py:27-35 | an accepted line has polarity +1 or -1; a rejected sentiment is neither `positive` nor `negative` |
| Lexicon.ParseFieldsRejects | exercises/tick1.py:27-28 | the word's IndexError arises exactly when the first field has no `=`; the too-few-fields IndexError exactly when it has one but there are fewer than three fields; the sentiment's IndexError exactly when there are three or more but the third has no `=` |
| Lexicon.ParseLine | exercises/tick1.py:25-35 | one line, stripped and split, gives an entry with polarity +1 or -1, or an illegal-sentiment error whose value is neither `positive` nor `negative`; which lines give which of the other errors is stated by the lemmas below |
| Lexicon.BlankLineRaises | exercises/tick1.py:25-27 | a line of only white space, such as an empty last line, raises the word's IndexError |
| Lexicon.FirstFieldWithoutValueRaises | exercises/tick1.py:25-27 | a line whose first field has no `=` raises the word's IndexError, whatever follows that field |
| Lexicon.FirstFieldOf | exercises/tick1.py:26-27 | `line_ls[0]` is the text up to the first space |
| Lexicon.OneFieldRaises | exercises/tick1.py:25-28 | a line of one field holding `=` raises the IndexError for the missing third field |
| Lexicon.TwoFieldsRaise | exercises/tick1.py:25-28 | a line of two fields, the first holding `=`, raises the IndexError for the missing third field |
| Lexicon.ThirdFieldWithoutValueRaises | exercises/tick1.py:25-28 | a line whose first field holds `=` and whose third field does not raises the sentiment's IndexError, whatever follows |
| Lexicon.ParseLexiconLine | exercises/tick1.py:23-35 | a line of the file, with any leading white space, any trailing white space such as its newline, any keys and any fields after the third, gives the first field's value with +1 when the third field's value is `positive`, with -1 when it is `negative`, and otherwise the illegal-sentiment error carrying that value |
| Lexicon.SplitFirstThree | exercises/tick1.py:26-28 | a line whose first three fields hold no space splits into those three fields first, with any further fields after them, so `line_ls[0]` and `line_ls[2]` are the first and third fields |
| Lexicon.Collect | exercises/tick1.py:24-35 | the dictionary the loop builds: it holds no more words than there are lines, and a reported error is the error of one of the lines |
| Lexicon.ParseLines | exercises/tick1.py:21-36 | every value stored in a successfully read lexicon is +1 or -1 |
| Lexicon.ReadLexicon | exercises/tick1.py:21-36 | the loop that fills the dictionary line by line and stops at the first bad line returns exactly `ParseLines(lines)` |
| Lexicon.CollectStep | exercises/tick1.py:24-35 | one turn of the loop: a good line extends the dictionary by its entry, and a bad line decides the result of the whole read |
| Lexicon.CollectedAll | exercises/tick1.py:24-35 | collecting per-line results succeeds if and only if every line parsed |
| Lexicon.CollectedPolarities | exercises/tick1.py:29-32 | if every parsed entry is +1 or -1, so is every value of the collected dictionary |
| Lexicon.FirstErrorAborts | exercises/tick1.py:33-35 | the error reported is that of the first failing line, whatever follows it |
| Lexicon.CollectedWords | exercises/tick1.py:27-32 | a word is in the collected dictionary if and only if some line defines it |
| Lexicon.LastEntryWins | exercises/tick1.py:29-32 | a word's value is the polarity given by the last line that defines it |
| Lexicon.LexiconReadSucceeds | exercises/tick1.py:24-36 | reading the lexicon succeeds if and only if every line parses |
| Lexicon.FirstBadLineRaises | exercises/tick1.py:24-35 | the read fails with the error of the first line that does not parse |
| Lexicon.LexiconWords | exercises/tick1.py:24-36 | the lexicon's words are exactly the words that its lines define |
| Lexicon.LastLineWins | exercises/tick1.py:29-32 | for a repeated word, the last line that defines it decides its polarity |
| Classifier.Count | exercises/tick1.py:51-57 | the number of tokens with a given lexicon value never exceeds the review's length |
| Classifier.NeutralCount | exercises/tick1.py:51-57 | the number of tokens that move neither counter never exceeds the review's length |
| Classifier.CountPolarities | exercises/tick1.py:48-57 | the loop leaves `pos` equal to the number of +1 tokens and `neg` equal to the number of -1 tokens, duplicates included, and `pos + neg <= len(review)` |
| Classifier.PredictSentiment | exercises/tick1.py:39-64 | the answer is 1, -1 or 0: 1 if and only if pos > neg, -1 if and only if pos < neg, and 0 if and only if they are equal (including an empty review) |
| Classifier.PredictSentimentImproved | exercises/tick1.py:83-108 | the answer is never 0: 1 if and only if pos - neg > 7, and -1 otherwise, including when the counts are equal |
| Classifier.CountAppend | exercises/tick1.py:51-57 | the count over a concatenation is the sum of the counts over its parts |
| Classifier.EveryTokenCountedOnce | exercises/tick1.py:51-57 | every token is counted exactly once, as positive, negative or neutral: pos + neg + neutral = len(review) |
| Classifier.NeutralTokensCountNothing | exercises/tick1.py:52-57 | tokens that are not in the lexicon, or whose value is neither +1 nor -1, add to neither counter |
| Classifier.InsertNeutralTokens | exercises/tick1.py:51-57 | inserting such tokens anywhere in a review changes neither count |
| Classifier.CountIgnoresOrder | exercises/tick1.py:51-64 | two reviews with the same multiset of tokens have the same counts, so both classifiers give them the same answer |
| Classifier.RemoveToken | exercises/tick1.py:51-57 | removing one token removes exactly that token's contribution to the count |
| Evaluation.Matches | exercises/tick1.py:75-78 | the number of correct predictions is at most the number of predictions |
| Evaluation.Accuracy | exercises/tick1.py:67-80 | no predictions gives the division-by-zero error; fewer labels than predictions gives the index error; otherwise the result is the number of correct predictions over the number of predictions, between 0 and 1 |
| Evaluation.Share | exercises/tick1.py:80 | `correct / len(pred)` is the number that, multiplied by len(pred), gives correct; it lies between 0 and 1 when correct <= len(pred) |
| Evaluation.MatchesCountsCorrectIndices | exercises/tick1.py:75-78 | the counter equals the number of indices i < len(pred) with `pred[i] == true[i]` |
| Evaluation.AllCorrect | exercises/tick1.py:75-80 | the counter reaches len(pred), that is accuracy 1, if and only if pred equals the first len(pred) labels |
| Evaluation.NoneCorrect | exercises/tick1.py:75-80 | the counter is 0, that is accuracy 0, if and only if no prediction equals its label |

## Left out

- File access in `read_lexicon` is not modelled: the `open` and `readlines` calls, and the hard-coded path that is used in place of the ignored `filename` parameter. The model takes the file's lines as a parameter. A line may still end with its newline, which `strip` removes as in the source.
- The `print(sentiment)` before the illegal-sentiment exception is a side effect. The model instead carries the printed value in the `IllegalSentiment` error.
- `main`, `read_tokens` and `load_reviews` are input/output and code this model does not contain. Tokenisation is left out, so a review is given as a sequence of tokens.
- Lexicon values are Dafny integers. Python would also treat a float value such as `1.0` as equal to 1, and that case is left out.
- Evaluation.Accuracy: the result is the exact rational `correct / len(pred)`, not the IEEE floating-point quotient the source computes.
- Text.Strip: its contract states only the properties of its result. The statement that exactly the white space at each end is cut off is made by the contracts of `StripLeading` and `StripTrailing`, which `Strip` composes.
- Naive Bayes Main.py is not part of this model: the class priors, the smoothed and unsmoothed likelihood tables and the log-probability classifier. It computes with floating-point logarithms.
