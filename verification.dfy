/** The text verification step of the Casemix verification page (app.py):
    an uploaded, decoded text is rewritten by a fixed, ordered table of
    literal find/replace rules, each rule applied with Python's
    `str.replace` to the output of the rule before it. */
module CasemixVerification {
  import opened Options
  import opened StrReplace

  /** One entry of the rule table: the key to find and its replacement. */
  type Rule = (string, string)

  /** The shipped rule table, in the dictionary's insertion order. */
  const Rules: seq<Rule> := [
    ("JKN", "BPJS"),
    ("T83.1", "Infeksi Alat Urologi"),
    ("N13.1", "Obstruksi Ureter dengan Hidronefrosis")
  ]

  /** Every key is non-empty, so each rule is a proper `str.replace`. */
  predicate ValidRules(rules: seq<Rule>) {
    forall i :: 0 <= i < |rules| ==> |rules[i].0| > 0
  }

  /** None of the keys occurs in `text`. */
  ghost predicate Untouched(text: string, rules: seq<Rule>) {
    forall i :: 0 <= i < |rules| ==> !Occurs(text, rules[i].0)
  }

  /** No key appears twice, as in a dictionary. */
  predicate DistinctKeys(rules: seq<Rule>) {
    forall i, j :: 0 <= i < j < |rules| ==> rules[i].0 != rules[j].0
  }

  /** The shipped table is a dictionary of non-empty keys. */
  lemma ShippedRulesValid()
    ensures ValidRules(Rules) && DistinctKeys(Rules) && |Rules| == 3
  {
  }

  /** The verified text: the left fold of ReplaceAll over the rules, the
      first rule applied to `text`, every later one to the result of the
      rule before it. A text that contains none of the keys passes every
      rule unchanged. */
  function Verify(text: string, rules: seq<Rule>): (r: string)
    requires ValidRules(rules)
    ensures Untouched(text, rules) ==> r == text
    decreases |rules|
  {
    if rules == [] then
      text
    else
      var next := ReplaceAll(text, rules[0].0, rules[0].1);
      assert Untouched(text, rules) ==> next == text && Untouched(text, rules[1..]) by {
        if Untouched(text, rules) {
          ReplaceAllAbsent(text, rules[0].0, rules[0].1);
          forall i | 0 <= i < |rules[1..]| ensures !Occurs(text, rules[1..][i].0) {
            assert rules[1..][i] == rules[i + 1];
          }
        }
      }
      Verify(next, rules[1..])
  }

  /** Running the table in two parts is running it whole: the second part
      sees exactly the output of the first. */
  lemma {:induction false} VerifyAppend(text: string, first: seq<Rule>, second: seq<Rule>)
    requires ValidRules(first) && ValidRules(second)
    ensures ValidRules(first + second)
    ensures Verify(text, first + second) == Verify(Verify(text, first), second)
    decreases |first|
  {
    if first == [] {
      assert first + second == second;
    } else {
      var (key, value) := first[0];
      assert (first + second)[1..] == first[1..] + second;
      VerifyAppend(ReplaceAll(text, key, value), first[1..], second);
    }
  }

  /** Adding one rule at the end of the table applies it last, to the
      output of all the rules before it. */
  lemma VerifySnoc(text: string, rules: seq<Rule>, rule: Rule)
    requires ValidRules(rules) && |rule.0| > 0
    ensures ValidRules(rules + [rule])
    ensures Verify(text, rules + [rule]) == ReplaceAll(Verify(text, rules), rule.0, rule.1)
  {
    VerifyAppend(text, rules, [rule]);
  }

  /** The replacement loop: `verified_text` starts as the uploaded text and
      is rebound to the output of each rule in turn. */
  method VerifyText(text: string, rules: seq<Rule>) returns (verifiedText: string)
    requires ValidRules(rules)
    ensures verifiedText == Verify(text, rules)
    ensures rules == [] ==> verifiedText == text
  {
    verifiedText := text;
    for i := 0 to |rules|
      invariant ValidRules(rules[..i])
      invariant verifiedText == Verify(text, rules[..i])
    {
      var (key, value) := rules[i];
      assert rules[..i + 1] == rules[..i] + [rules[i]];
      VerifySnoc(text, rules[..i], rules[i]);
      verifiedText := ReplaceAll(verifiedText, key, value);
    }
    assert rules[..|rules|] == rules;
  }

  /** What the page holds after an upload: the text as uploaded, shown
      under "Isi Asli", and its verified copy. */
  datatype Page = Page(original: string, verified: string)

  /** The page step: nothing is shown until a file is uploaded; then the
      original text is kept as it is and only its copy is rewritten by the
      shipped table. */
  method ProcessUpload(upload: Option<string>) returns (page: Option<Page>)
    ensures upload.None? ==> page == None
    ensures upload.Some? ==> page == Some(Page(upload.value, Verify(upload.value, Rules)))
  {
    match upload
    case None =>
      page := None;
    case Some(text) =>
      ShippedRulesValid();
      var verifiedText := VerifyText(text, Rules);
      page := Some(Page(text, verifiedText));
  }

  /** With the shipped table the fold is three passes: "JKN", then
      "T83.1", then "N13.1". */
  lemma VerifyShipped(text: string)
    ensures ValidRules(Rules)
    ensures Verify(text, Rules) == ReplaceAll(ReplaceAll(ReplaceAll(text,
              "JKN", "BPJS"),
              "T83.1", "Infeksi Alat Urologi"),
              "N13.1", "Obstruksi Ureter dengan Hidronefrosis")
  {
    assert Rules[1..][1..][1..] == [];
  }

  /** Rule `i` sees the output of the rules before it, and the rules after
      it see its output. */
  lemma VerifyAround(text: string, rules: seq<Rule>, i: nat)
    requires ValidRules(rules) && i < |rules|
    ensures ValidRules(rules[..i]) && ValidRules(rules[i + 1..])
    ensures Verify(text, rules)
              == Verify(ReplaceAll(Verify(text, rules[..i]), rules[i].0, rules[i].1), rules[i + 1..])
  {
    var before, after := rules[..i], rules[i + 1..];
    assert ValidRules(before) && ValidRules(after);
    VerifySnoc(text, before, rules[i]);
    VerifyAppend(text, before + [rules[i]], after);
    assert before + [rules[i]] + after == rules;
  }

  /** A text that is exactly the key of rule `i`, where no earlier key
      occurs in that key and no later key occurs in its value, comes out as
      that value. */
  lemma VerifyKeyAlone(rules: seq<Rule>, i: nat)
    requires ValidRules(rules) && i < |rules|
    requires forall j :: 0 <= j < i ==> !Occurs(rules[i].0, rules[j].0)
    requires forall j :: i < j < |rules| ==> !Occurs(rules[i].1, rules[j].0)
    ensures Verify(rules[i].0, rules) == rules[i].1
  {
    var key, value := rules[i].0, rules[i].1;
    VerifyAround(key, rules, i);
    var before, after := rules[..i], rules[i + 1..];
    assert Verify(key, before) == key by {
      assert Untouched(key, before);
    }
    ReplaceAllWhole(key, value);
    assert Verify(value, after) == value by {
      forall j | 0 <= j < |after| ensures !Occurs(value, after[j].0) {
        assert after[j] == rules[i + 1 + j];
      }
      assert Untouched(value, after);
    }
  }

  /** Each key of the shipped table, alone, becomes its value. */
  lemma ShippedTableExamples()
    ensures Verify("JKN", Rules) == "BPJS"
    ensures Verify("T83.1", Rules) == "Infeksi Alat Urologi"
    ensures Verify("N13.1", Rules) == "Obstruksi Ureter dengan Hidronefrosis"
  {
    ShippedKeyJkn();
    ShippedKeyT83();
    ShippedKeyN13();
  }

  /** The shipped key "JKN" alone becomes "BPJS". */
  lemma ShippedKeyJkn()
    ensures Verify("JKN", Rules) == "BPJS"
  {
    ShippedRulesValid();
    AbsentWithoutFirstChar(Rules[0].1, Rules[1].0);
    AbsentWithoutFirstChar(Rules[0].1, Rules[2].0);
    VerifyKeyAlone(Rules, 0);
  }

  /** The shipped key "T83.1" alone becomes "Infeksi Alat Urologi". */
  lemma ShippedKeyT83()
    ensures Verify("T83.1", Rules) == "Infeksi Alat Urologi"
  {
    ShippedRulesValid();
    AbsentWithoutFirstChar(Rules[1].0, Rules[0].0);
    AbsentWithoutFirstChar(Rules[1].1, Rules[2].0);
    VerifyKeyAlone(Rules, 1);
  }

  /** The shipped key "N13.1" alone becomes "Obstruksi Ureter dengan Hidronefrosis". */
  lemma ShippedKeyN13()
    ensures Verify("N13.1", Rules) == "Obstruksi Ureter dengan Hidronefrosis"
  {
    ShippedRulesValid();
    AbsentWithoutFirstChar(Rules[2].0, Rules[0].0);
    AbsentWithoutFirstChar(Rules[2].0, Rules[1].0);
    VerifyKeyAlone(Rules, 2);
  }

  /** A text that starts with the first key, and whose remainder holds no
      key, becomes the first value followed by that remainder, provided no
      later key appears once the value is in place. */
  lemma VerifyFirstKeyPrefix(first: Rule, later: seq<Rule>, rest: string)
    requires |first.0| > 0 && ValidRules(later)
    requires !Occurs(rest, first.0)
    requires forall j :: 0 <= j < |later| ==> !Occurs(first.1 + rest, later[j].0)
    ensures ValidRules([first] + later)
    ensures Verify(first.0 + rest, [first] + later) == first.1 + rest
  {
    var rules := [first] + later;
    assert rules[1..] == later;
    var text := first.0 + rest;
    assert text[..|first.0|] == first.0 && text[|first.0|..] == rest;
    FirstMatchAtFront(text, first.0, first.1);
    ReplaceAllAbsent(rest, first.0, first.1);
    assert Untouched(first.1 + rest, later);
  }

  /** Order matters with the shipped table: "JKN" ends with the "N" that
      starts "N13.1", and with the table's order the "JKN" rule consumes
      that "N" before the "N13.1" rule runs. */
  lemma ShippedTableOrder()
    ensures Verify("JKN" + "13.1", Rules) == "BPJS" + "13.1"
  {
    var first, later := ("JKN", "BPJS"), Rules[1..];
    ShippedRulesValid();
    AbsentWithoutFirstChar("13.1", first.0);
    AbsentWithoutFirstChar(first.1 + "13.1", later[0].0);
    AbsentWithoutFirstChar(first.1 + "13.1", later[1].0);
    VerifyFirstKeyPrefix(first, later, "13.1");
    assert [first] + later == Rules;
  }

  /** A text that ends with the first key, at its leftmost occurrence,
      keeps everything before the key and ends with the first value,
      provided no later key appears once the value is in place. */
  lemma VerifyFirstKeySuffix(first: Rule, later: seq<Rule>, front: string)
    requires |first.0| > 0 && ValidRules(later)
    requires Find(front + first.0, first.0) == Some(|front|)
    requires forall j :: 0 <= j < |later| ==> !Occurs(front + first.1, later[j].0)
    ensures ValidRules([first] + later)
    ensures Verify(front + first.0, [first] + later) == front + first.1
  {
    var rules := [first] + later;
    assert rules[1..] == later;
    assert Untouched(front + first.1, later);
    ReplaceAllFinalMatch(front, first.0, first.1);
  }

  /** The leftmost "N13.1" in "JKN13.1" starts at index 2. */
  lemma FindN13InJKN13()
    ensures Find("JK" + Rules[2].0, Rules[2].0) == Some(2)
  {
    var key := Rules[2].0;
    assert key[..|key|] == key;
    assert Find(key, key) == Some(0);
    assert (['K'] + key)[1..] == key && (['K'] + key)[..|key|][0] != key[0];
    assert Find(['K'] + key, key) == Some(1);
    assert ("JK" + key)[1..] == ['K'] + key && ("JK" + key)[..|key|][0] != key[0];
  }

  /** Neither "JKN" nor "T83.1" occurs in "JK" followed by the value of
      "N13.1". */
  lemma NoKeyInJKValue()
    ensures !Occurs("JK" + Rules[2].1, Rules[0].0)
    ensures !Occurs("JK" + Rules[2].1, Rules[1].0)
  {
    var shown := "JK" + Rules[2].1;
    assert shown[2] == 'O' && Rules[0].0[2] == 'N';
    assert !OccursAt(shown, Rules[0].0, 0);
    OccursTail(shown, Rules[0].0);
    AbsentWithoutFirstChar(shown[1..], Rules[0].0);
    AbsentWithoutFirstChar(shown, Rules[1].0);
  }

  /** With "N13.1" moved to the front of the table, the same text keeps its
      "JK" and the "JKN" rule no longer matches. */
  lemma ReorderedTable()
    ensures ValidRules([Rules[2], Rules[0], Rules[1]])
    ensures Verify("JKN13.1", [Rules[2], Rules[0], Rules[1]]) == "JK" + Rules[2].1
  {
    var later := [Rules[0], Rules[1]];
    FindN13InJKN13();
    NoKeyInJKValue();
    VerifyFirstKeySuffix(Rules[2], later, "JK");
    assert [Rules[2]] + later == [Rules[2], Rules[0], Rules[1]];
    assert "JK" + Rules[2].0 == "JKN13.1";
  }
}
