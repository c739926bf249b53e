/** Reading the sentiment lexicon (`read_lexicon` in exercises/tick1.py):
    each line is stripped and split on single spaces; the word is the value
    of the first `key=value` field and the sentiment the value of the third.
    The file itself is not opened here: the lines are given. */
module Lexicon {
  import opened Results
  import opened Text

  /** Why a lexicon line is rejected; each case is an exception of the
      source. */
  datatype LexiconError =
    | NoWordValue                     // IndexError: first field has no '='
    | TooFewFields                    // IndexError: fewer than three fields
    | NoSentimentValue                // IndexError: third field has no '='
    | IllegalSentiment(value: string) // ValueError('illegal sentiment!'), after printing the value

  /** What one well-formed line contributes: a word and its polarity
      (+1 for `positive`, -1 for `negative`). */
  datatype Entry = Entry(word: string, polarity: int)

  /** The value of a `key=value` field as the source reads it,
      `field.split('=')[1]`: the text between the first and the second `=`,
      or None when the field has no `=` (`FieldValueOfField` states which
      text it is). */
  function FieldValue(field: string): (v: Option<string>)
    ensures v.Some? <==> '=' in field
    ensures v.Some? ==> '=' !in v.value
  {
    var pieces := Split(field, '=');
    SplitPieces(field, '=');
    if |pieces| < 2 then
      assert pieces == [Join(pieces, '=')];
      None
    else
      assert '=' in Join(pieces, '=');
      Some(pieces[1])
  }

  /** One iteration of the loop in `read_lexicon`, without the dictionary
      update: the entry the line defines, or the exception it raises. */
  function ParseLine(line: string): (r: Result<Entry, LexiconError>)
    ensures r.Ok? ==> r.value.polarity == 1 || r.value.polarity == -1
    ensures r.Err? && r.error.IllegalSentiment? ==>
      r.error.value != "positive" && r.error.value != "negative"
  {
    ParseFields(Split(Strip(line), ' '))
  }

  /** The fields of a stripped line, read as `read_lexicon` reads them. */
  function ParseFields(fields: seq<string>): (r: Result<Entry, LexiconError>)
    requires |fields| >= 1
    ensures r.Ok? ==> r.value.polarity == 1 || r.value.polarity == -1
    ensures r.Err? && r.error.IllegalSentiment? ==>
      r.error.value != "positive" && r.error.value != "negative"
  {
    match FieldValue(fields[0])
    case None => Err(NoWordValue)
    case Some(word) =>
      if |fields| < 3 then Err(TooFewFields)
      else
        match FieldValue(fields[2])
        case None => Err(NoSentimentValue)
        case Some(sentiment) =>
          if sentiment == "negative" then Ok(Entry(word, -1))
          else if sentiment == "positive" then Ok(Entry(word, 1))
          else Err(IllegalSentiment(sentiment))
  }

  /** When each IndexError of `read_lexicon` is raised: for the word
      exactly when the first field has no `=`; for the missing third field
      exactly when the first has one but there are fewer than three; and for
      the sentiment exactly when there are three but the third has no `=`. */
  lemma ParseFieldsRejects(fields: seq<string>)
    requires |fields| >= 1
    ensures ParseFields(fields) == Err(NoWordValue) <==> '=' !in fields[0]
    ensures ParseFields(fields) == Err(TooFewFields) <==> '=' in fields[0] && |fields| < 3
    ensures ParseFields(fields) == Err(NoSentimentValue) <==>
      '=' in fields[0] && |fields| >= 3 && '=' !in fields[2]
  {
  }

  /** The dictionary the loop of `read_lexicon` builds from the per-line
      results, in order: each entry overwrites an earlier one for the same
      word, and the first line that raised aborts the whole read. The
      dictionary never holds more words than there were lines, and a
      reported error is the error of one of the lines. */
  function Collect(results: seq<Result<Entry, LexiconError>>): (r: Result<map<string, int>, LexiconError>)
    ensures r.Ok? ==> |r.value| <= |results|
    ensures r.Err? ==> Err(r.error) in results
  {
    if results == [] then Ok(map[])
    else
      match Collect(results[..|results| - 1])
      case Err(e) => Err(e)
      case Ok(lexicon) =>
        match results[|results| - 1]
        case Err(e) => Err(e)
        case Ok(entry) => Ok(lexicon[entry.word := entry.polarity])
  }

  /** The result of parsing each line on its own. The contract only lays
      the elements of the sequence open to the lemmas that use it. */
  function ParseEach(lines: seq<string>): (results: seq<Result<Entry, LexiconError>>)
    ensures |results| == |lines|
    ensures forall i :: 0 <= i < |lines| ==> results[i] == ParseLine(lines[i])
  {
    seq(|lines|, i requires 0 <= i < |lines| => ParseLine(lines[i]))
  }

  /** The lexicon `read_lexicon` returns for the lines of its file, or the
      exception it raises. Every stored value is a polarity, +1 or -1. */
  function ParseLines(lines: seq<string>): (r: Result<map<string, int>, LexiconError>)
    ensures r.Ok? ==> forall w :: w in r.value ==> r.value[w] == 1 || r.value[w] == -1
  {
    var results := ParseEach(lines);
    CollectedPolarities(results);
    Collect(results)
  }

  /** `read_lexicon` over the lines of the file: the loop adds one entry per
      line to a dictionary and stops at the first line that raises. */
  method ReadLexicon(lines: seq<string>) returns (r: Result<map<string, int>, LexiconError>)
    ensures r == ParseLines(lines)
  {
    ghost var results := ParseEach(lines);
    var lexicon: map<string, int> := map[];
    var i := 0;
    while i < |lines|
      invariant 0 <= i <= |lines|
      invariant Collect(results[..i]) == Ok(lexicon)
    {
      var result := ParseLine(lines[i]);
      CollectStep(results, i, lexicon);
      if result.Err? {
        return Err(result.error);
      }
      lexicon := lexicon[result.value.word := result.value.polarity];
      i := i + 1;
    }
    assert results[..i] == results;
    return Ok(lexicon);
  }

  /** One turn of the loop: a line that parses extends the dictionary, and
      a line that raises decides the outcome of the whole read. */
  lemma CollectStep(results: seq<Result<Entry, LexiconError>>, i: nat, lexicon: map<string, int>)
    requires i < |results| && Collect(results[..i]) == Ok(lexicon)
    ensures results[i].Err? ==> Collect(results) == Err(results[i].error)
    ensures results[i].Ok? ==> Collect(results[..i + 1]) == Ok(lexicon[results[i].value.word := results[i].value.polarity])
  {
    assert results[..i + 1][..i] == results[..i];
    if results[i].Err? {
      CollectedAll(results[..i]);
      assert forall j :: 0 <= j < i ==> results[..i][j] == results[j];
      FirstErrorAborts(results, i);
    }
  }

  /** True when `result` is an entry for `word`. */
  predicate Defines(result: Result<Entry, LexiconError>, word: string)
  {
    result.Ok? && result.value.word == word
  }

  /** Collecting succeeds exactly when every line parsed. */
  lemma {:induction false} CollectedAll(results: seq<Result<Entry, LexiconError>>)
    ensures Collect(results).Ok? <==> forall i :: 0 <= i < |results| ==> results[i].Ok?
  {
    if results != [] {
      var init := results[..|results| - 1];
      CollectedAll(init);
      assert forall i :: 0 <= i < |init| ==> init[i] == results[i];
    }
  }

  /** When every parsed entry carries a polarity, so does every value of the
      collected dictionary. */
  lemma {:induction false} CollectedPolarities(results: seq<Result<Entry, LexiconError>>)
    requires forall i :: 0 <= i < |results| && results[i].Ok? ==>
      results[i].value.polarity == 1 || results[i].value.polarity == -1
    ensures Collect(results).Ok? ==>
      forall w :: w in Collect(results).value ==> Collect(results).value[w] == 1 || Collect(results).value[w] == -1
  {
    if results != [] {
      var init := results[..|results| - 1];
      assert forall i :: 0 <= i < |init| ==> init[i] == results[i];
      CollectedPolarities(init);
    }
  }

  /** The error reported is the first one raised, whatever follows it. */
  lemma {:induction false} FirstErrorAborts(results: seq<Result<Entry, LexiconError>>, k: nat)
    requires k < |results| && results[k].Err?
    requires forall j :: 0 <= j < k ==> results[j].Ok?
    ensures Collect(results) == Err(results[k].error)
  {
    var init := results[..|results| - 1];
    if k == |results| - 1 {
      CollectedAll(init);
      assert forall j :: 0 <= j < |init| ==> init[j] == results[j];
    } else {
      assert init[k] == results[k];
      assert forall j :: 0 <= j < k ==> init[j] == results[j];
      FirstErrorAborts(init, k);
    }
  }

  /** The words of a collected dictionary are exactly the words that some
      line defines. */
  lemma {:induction false} CollectedWords(results: seq<Result<Entry, LexiconError>>, w: string)
    requires Collect(results).Ok?
    ensures w in Collect(results).value <==> exists i :: 0 <= i < |results| && Defines(results[i], w)
  {
    if results != [] {
      var init := results[..|results| - 1];
      CollectedWords(init, w);
      assert forall i :: 0 <= i < |init| ==> init[i] == results[i];
      if w in Collect(init).value {
        var i :| 0 <= i < |init| && Defines(init[i], w);
        assert Defines(results[i], w);
      }
    }
  }

  /** Later lines overwrite earlier ones: a word gets the polarity of the
      last line that defines it. */
  lemma {:induction false} LastEntryWins(results: seq<Result<Entry, LexiconError>>, i: nat)
    requires Collect(results).Ok?
    requires i < |results| && results[i].Ok?
    requires forall j :: i < j < |results| ==> !Defines(results[j], results[i].value.word)
    ensures var e := results[i].value;
      e.word in Collect(results).value && Collect(results).value[e.word] == e.polarity
  {
    var init := results[..|results| - 1];
    if i < |results| - 1 {
      assert init[i] == results[i];
      assert forall j :: i < j < |init| ==> init[j] == results[j];
      LastEntryWins(init, i);
    }
  }

  /** Reading succeeds exactly when every line parses; otherwise the error
      is that of the first line that does not. */
  lemma LexiconReadSucceeds(lines: seq<string>)
    ensures ParseLines(lines).Ok? <==> forall i :: 0 <= i < |lines| ==> ParseLine(lines[i]).Ok?
  {
    CollectedAll(ParseEach(lines));
  }

  /** The error of a failed read is that of the first line that fails. */
  lemma FirstBadLineRaises(lines: seq<string>, k: nat)
    requires k < |lines| && ParseLine(lines[k]).Err?
    requires forall j :: 0 <= j < k ==> ParseLine(lines[j]).Ok?
    ensures ParseLines(lines) == Err(ParseLine(lines[k]).error)
  {
    FirstErrorAborts(ParseEach(lines), k);
  }

  /** The words of the lexicon are exactly the words its lines define. */
  lemma LexiconWords(lines: seq<string>, w: string)
    requires ParseLines(lines).Ok?
    ensures w in ParseLines(lines).value <==> exists i :: 0 <= i < |lines| && Defines(ParseLine(lines[i]), w)
  {
    var results := ParseEach(lines);
    CollectedWords(results, w);
    assert forall i :: 0 <= i < |lines| ==> results[i] == ParseLine(lines[i]);
  }

  /** For a repeated word, the last line that defines it decides its
      polarity. */
  lemma LastLineWins(lines: seq<string>, i: nat)
    requires ParseLines(lines).Ok?
    requires i < |lines| && ParseLine(lines[i]).Ok?
    requires forall j :: i < j < |lines| ==> !Defines(ParseLine(lines[j]), ParseLine(lines[i]).value.word)
    ensures var e := ParseLine(lines[i]).value;
      e.word in ParseLines(lines).value && ParseLines(lines).value[e.word] == e.polarity
  {
    LastEntryWins(ParseEach(lines), i);
  }

  /** A `key=value...` field: `key`, an `=`, the value, and then either
      nothing or more text starting with a further `=`. The key is never
      looked at; only the position of the field matters. */
  function Field(key: string, value: string, rest: string): string
  {
    key + ['='] + value + rest
  }

  /** `field.split('=')[1]` is the text between the first and the second
      `=` of the field, or up to its end when there is no second `=`. */
  lemma FieldValueOfField(key: string, value: string, rest: string)
    requires '=' !in key && '=' !in value
    requires rest == [] || rest[0] == '='
    ensures FieldValue(Field(key, value, rest)) == Some(value)
  {
    assert Field(key, value, rest) == key + ['='] + (value + rest);
    SplitAtFirstSeparator(key, value + rest, '=');
    if rest == [] {
      assert value + rest == value;
      SplitWithoutSeparator(value, '=');
    } else {
      assert value + rest == value + ['='] + rest[1..];
      SplitAtFirstSeparator(value, rest[1..], '=');
    }
  }

  /** Splitting on spaces a text whose first three fields hold no space
      yields those three fields first, whatever follows them. */
  lemma SplitFirstThree(f0: string, f1: string, f2: string, more: string)
    requires ' ' !in f0 && ' ' !in f1 && ' ' !in f2
    requires more == [] || more[0] == ' '
    ensures var fields := Split(f0 + [' '] + f1 + [' '] + f2 + more, ' ');
      |fields| >= 3 && fields[0] == f0 && fields[1] == f1 && fields[2] == f2
  {
    var tail := Split(f2 + more, ' ');
    if more == [] {
      assert f2 + more == f2;
      SplitWithoutSeparator(f2, ' ');
    } else {
      assert f2 + more == f2 + [' '] + more[1..];
      SplitAtFirstSeparator(f2, more[1..], ' ');
    }
    assert f1 + [' '] + (f2 + more) == f1 + [' '] + f2 + more;
    SplitAtFirstSeparator(f1, f2 + more, ' ');
    assert f0 + [' '] + (f1 + [' '] + f2 + more) == f0 + [' '] + f1 + [' '] + f2 + more;
    SplitAtFirstSeparator(f0, f1 + [' '] + f2 + more, ' ');
  }

  /** What one line of the lexicon file means. The line is optional white
      space (`lead`), three space-separated fields, possibly further fields
      (`more`, empty or starting with a space), and trailing white space
      (`trail`, the newline `readlines()` leaves). The first field's value
      is the word and the third field's value the sentiment; their keys and
      the second field are not looked at. The line gives the word with +1
      for `positive`, -1 for `negative`, and is rejected carrying any
      other sentiment. */
  lemma ParseLexiconLine(lead: string, key0: string, word: string, rest0: string, f1: string,
                         key2: string, sentiment: string, rest2: string, more: string, trail: string)
    requires AllSpace(lead) && AllSpace(trail)
    requires '=' !in key0 && '=' !in word && (rest0 == [] || rest0[0] == '=')
    requires '=' !in key2 && '=' !in sentiment && (rest2 == [] || rest2[0] == '=')
    requires ' ' !in key0 + word + rest0 && ' ' !in f1 && ' ' !in key2 + sentiment + rest2
    requires more == [] || more[0] == ' '
    requires var body := Field(key0, word, rest0) + [' '] + f1 + [' '] + Field(key2, sentiment, rest2) + more;
      !IsSpace(body[0]) && !IsSpace(body[|body| - 1])
    ensures var body := Field(key0, word, rest0) + [' '] + f1 + [' '] + Field(key2, sentiment, rest2) + more;
      ParseLine(lead + body + trail) ==
        if sentiment == "positive" then Ok(Entry(word, 1))
        else if sentiment == "negative" then Ok(Entry(word, -1))
        else Err(IllegalSentiment(sentiment))
  {
    var f0, f2 := Field(key0, word, rest0), Field(key2, sentiment, rest2);
    var body := f0 + [' '] + f1 + [' '] + f2 + more;
    assert ' ' !in f0 by {
      assert f0 == key0 + (['='] + (word + rest0));
      assert key0 + word + rest0 == key0 + (word + rest0);
    }
    assert ' ' !in f2 by {
      assert f2 == key2 + (['='] + (sentiment + rest2));
      assert key2 + sentiment + rest2 == key2 + (sentiment + rest2);
    }
    StripPadding(lead, body, trail);
    SplitFirstThree(f0, f1, f2, more);
    FieldValueOfField(key0, word, rest0);
    FieldValueOfField(key2, sentiment, rest2);
  }

  /** A line of nothing but white space, such as an empty last line of the
      file, strips to nothing, and its missing first field has no `=`:
      the read fails with an IndexError. */
  lemma BlankLineRaises(line: string)
    requires AllSpace(line)
    ensures ParseLine(line) == Err(NoWordValue)
  {
    assert StripLeading(line) == [];
    assert Strip(line) == [];
  }

  /** A line whose first field has no `=` raises an IndexError for the
      word, whatever follows that field. */
  lemma FirstFieldWithoutValueRaises(lead: string, f0: string, more: string, trail: string)
    requires AllSpace(lead) && AllSpace(trail)
    requires ' ' !in f0 && '=' !in f0
    requires more == [] || more[0] == ' '
    requires var body := f0 + more; body != [] && !IsSpace(body[0]) && !IsSpace(body[|body| - 1])
    ensures ParseLine(lead + (f0 + more) + trail) == Err(NoWordValue)
  {
    var line := lead + (f0 + more) + trail;
    StripPadding(lead, f0 + more, trail);
    FirstFieldOf(f0, more);
    assert Split(Strip(line), ' ')[0] == f0;
  }

  /** The first field of a text is the text up to its first space. */
  lemma FirstFieldOf(f0: string, more: string)
    requires ' ' !in f0
    requires more == [] || more[0] == ' '
    ensures Split(f0 + more, ' ')[0] == f0
  {
    if more == [] {
      assert f0 + more == f0;
      SplitWithoutSeparator(f0, ' ');
    } else {
      assert f0 + more == f0 + [' '] + more[1..];
      SplitAtFirstSeparator(f0, more[1..], ' ');
    }
  }

  /** A line of a single field that holds `=` raises an IndexError: there
      is no third field. */
  lemma OneFieldRaises(lead: string, f0: string, trail: string)
    requires AllSpace(lead) && AllSpace(trail)
    requires ' ' !in f0 && '=' in f0
    requires !IsSpace(f0[0]) && !IsSpace(f0[|f0| - 1])
    ensures ParseLine(lead + f0 + trail) == Err(TooFewFields)
  {
    StripPadding(lead, f0, trail);
    SplitWithoutSeparator(f0, ' ');
  }

  /** A line of two fields, the first holding `=`, raises an IndexError:
      there is no third field. */
  lemma TwoFieldsRaise(lead: string, f0: string, f1: string, trail: string)
    requires AllSpace(lead) && AllSpace(trail)
    requires ' ' !in f0 && ' ' !in f1 && '=' in f0
    requires var body := f0 + [' '] + f1; !IsSpace(body[0]) && !IsSpace(body[|body| - 1])
    ensures ParseLine(lead + (f0 + [' '] + f1) + trail) == Err(TooFewFields)
  {
    StripPadding(lead, f0 + [' '] + f1, trail);
    SplitWithoutSeparator(f1, ' ');
    SplitAtFirstSeparator(f0, f1, ' ');
  }

  /** A line whose first field holds `=` but whose third field does not
      raises an IndexError for the sentiment, whatever follows. */
  lemma ThirdFieldWithoutValueRaises(lead: string, f0: string, f1: string, f2: string, more: string, trail: string)
    requires AllSpace(lead) && AllSpace(trail)
    requires ' ' !in f0 && ' ' !in f1 && ' ' !in f2
    requires '=' in f0 && '=' !in f2
    requires more == [] || more[0] == ' '
    requires var body := f0 + [' '] + f1 + [' '] + f2 + more;
      !IsSpace(body[0]) && !IsSpace(body[|body| - 1])
    ensures ParseLine(lead + (f0 + [' '] + f1 + [' '] + f2 + more) + trail) == Err(NoSentimentValue)
  {
    StripPadding(lead, f0 + [' '] + f1 + [' '] + f2 + more, trail);
    SplitFirstThree(f0, f1, f2, more);
  }
}
