/**
 * The add-fault dialog (src/app/dashboard/components/add-fault-dialog.tsx):
 * its form rules, the phone field's digit filter, the `+370` prefix added on
 * submit and the censoring of the description against the forbidden words.
 * The dialog is modelled as written; the corrected type rule and the
 * corrected censor stand beside it.
 * The e-mail rule belongs to the validation library and is a parameter.
 */
module AddFaultDialog {
  import opened Wrappers
  import opened Seqs
  import opened Text
  import opened FaultTypes
  import opened Censor
  import opened ForbiddenWords
  import opened ForbiddenWordsClient

  /** The raw values of the dialog; `faultType` is the key the type picker hands over. */
  datatype DialogForm = DialogForm(
    reporterName: string,
    reporterEmail: string,
    reporterPhone: string,
    address: string,
    faultType: string,
    description: string)

  /** The type keys the picker offers: the keys of the translation table, in its order. */
  function OfferedTypeKeys(): (r: seq<string>)
    ensures |r| == 4
    ensures forall t: FaultType :: TypeName(t) in r
  {
    var keys := seq(|AllFaultTypes|, i requires 0 <= i < |AllFaultTypes| => TypeName(AllFaultTypes[i]));
    assert keys == [TypeName(Electricity), TypeName(Plumbing), TypeName(Heating), TypeName(General)];
    keys
  }

  /** The type rule as the dialog's schema writes it: electricity, plumbing, renovation or general. */
  predicate TypeAcceptedAsWritten(key: string)
  {
    key == "electricity" || key == "plumbing" || key == "renovation" || key == "general"
  }

  /** The picker offers "heating", which the written rule refuses, and the rule accepts "renovation", which no category spells. */
  lemma HeatingRefusedAsWritten()
    ensures "heating" in OfferedTypeKeys() && !TypeAcceptedAsWritten("heating")
    ensures TypeAcceptedAsWritten("renovation") && ParseFaultType("renovation").None?
  {
    assert TypeName(Heating) in OfferedTypeKeys();
  }

  /** The type rule the picker and the records agree on: the key spells a declared category. */
  predicate TypeAccepted(key: string)
  {
    ParseFaultType(key).Some?
  }

  /** The corrected rule accepts exactly the keys the picker offers. */
  lemma TypeAcceptedIsOffered(key: string)
    ensures TypeAccepted(key) <==> key in OfferedTypeKeys()
  {
    if key in OfferedTypeKeys() {
      var k :| 0 <= k < 4 && OfferedTypeKeys()[k] == key;
      assert k == 0 || k == 1 || k == 2 || k == 3;
    }
  }

  /** `value.replace(/[^0-9]/g, "")` on every keystroke of the phone field. */
  function DigitsOnly(s: string): (r: string)
    ensures |r| <= |s|
    ensures forall j :: 0 <= j < |r| ==> IsDigit(r[j])
  {
    Filter(IsDigit, s)
  }

  /** The filter keeps the digits in order: filtering a concatenation filters each part. */
  lemma DigitsOnlyConcat(a: string, b: string)
    ensures DigitsOnly(a + b) == DigitsOnly(a) + DigitsOnly(b)
  {
    FilterConcat(IsDigit, a, b);
  }

  /** Digits pass the filter unchanged, so filtering twice is filtering once. */
  lemma DigitsOnlyKeepsDigits(s: string)
    requires forall j :: 0 <= j < |s| ==> IsDigit(s[j])
    ensures DigitsOnly(s) == s
  {
    FilterKeepsAll(IsDigit, s);
  }

  lemma DigitsOnlyIdempotent(s: string)
    ensures DigitsOnly(DigitsOnly(s)) == DigitsOnly(s)
  {
    DigitsOnlyKeepsDigits(DigitsOnly(s));
  }

  /** The phone rule: exactly eight characters, all digits. */
  predicate PhoneAccepted(phone: string)
  {
    |phone| == 8 && forall j :: 0 <= j < |phone| ==> IsDigit(phone[j])
  }

  /** The stored number: the country code in front of the local digits. */
  function FullPhoneNumber(local: string): (r: string)
    ensures |r| == |local| + 4 && r[..4] == "+370" && r[4..] == local
  {
    "+370" + local
  }

  /** An accepted phone is stored as twelve characters: `+370` and eight digits. */
  lemma StoredPhoneShape(local: string)
    requires PhoneAccepted(local)
    ensures |FullPhoneNumber(local)| == 12
    ensures forall j :: 4 <= j < 12 ==> IsDigit(FullPhoneNumber(local)[j])
  {
  }

  /** `formSchema` of the dialog, with its type rule as written. */
  predicate DialogFormValid(isEmail: string -> bool, form: DialogForm)
  {
    && |form.reporterName| >= 2
    && isEmail(form.reporterEmail)
    && PhoneAccepted(form.reporterPhone)
    && |form.address| >= 5
    && TypeAcceptedAsWritten(form.faultType)
    && 10 <= |form.description| <= 500
  }

  /**
   * `onSubmit`: the values go to `addFault` as they are, the phone with the
   * country code in front. An accepted "renovation" form names no category a
   * fault can carry, so the model hands nothing on for it.
   */
  function DialogSubmit(isEmail: string -> bool, form: DialogForm): (d: Option<NewFaultData>)
    requires DialogFormValid(isEmail, form)
    ensures d.None? <==> form.faultType == "renovation"
    ensures d.Some? ==> d.value.reporterName == form.reporterName && d.value.reporterEmail == form.reporterEmail
    ensures d.Some? ==> d.value.address == form.address && d.value.description == form.description
    ensures d.Some? ==> TypeName(d.value.faultType) == form.faultType
    ensures d.Some? ==> d.value.reporterPhone == FullPhoneNumber(form.reporterPhone)
    ensures d.Some? ==> 2 <= |d.value.reporterName| && 5 <= |d.value.address| && 10 <= |d.value.description| <= 500
  {
    match ParseFaultType(form.faultType)
    case None => None
    case Some(t) =>
      Some(NewFaultData(
        form.reporterName,
        form.reporterEmail,
        FullPhoneNumber(form.reporterPhone),
        form.address,
        t,
        form.description))
  }

  /** No form the dialog accepts creates a heating fault, although the picker offers that category. */
  lemma DialogNeverSubmitsHeating(isEmail: string -> bool, form: DialogForm)
    requires DialogFormValid(isEmail, form)
    ensures DialogSubmit(isEmail, form).Some? ==> DialogSubmit(isEmail, form).value.faultType != Heating
    ensures DialogSubmit(isEmail, form).Some? ==> ParseFaultType(form.faultType).Some? && form.faultType != "heating"
  {
  }

  /** Every entry of the list is a non-empty run of `cls` word characters, so a censor with those boundaries can mask it whole. */
  predicate AllCensorable(cls: WordClass, words: seq<string>)
  {
    forall w :: w in words ==> WordOf(cls, w)
  }

  /** The built-in words are non-empty runs of ASCII letters and digits. */
  lemma InitialWordsCensorable(cls: WordClass)
    ensures AllCensorable(cls, InitialForbiddenWords)
    ensures NoEmptyWords(InitialForbiddenWords)
  {
    forall w | w in InitialForbiddenWords
      ensures WordOf(cls, w)
    {
      assert forall j :: 0 <= j < |w| ==> IsAsciiWordChar(w[j]);
    }
  }

  /**
   * Deleting any word keeps every entry censorable. Adding a word the form
   * accepts keeps them censorable under letter boundaries, and under the
   * source's ASCII boundaries only when the word is ASCII.
   */
  lemma UpdatesKeepCensorable(cls: WordClass, words: seq<string>, word: string)
    requires AllCensorable(cls, words)
    ensures WordFormValid(word) && (cls == LatinLetters || forall j :: 0 <= j < |word| ==> IsAsciiWordChar(word[j])) ==>
      AllCensorable(cls, WithWordAdded(words, word))
    ensures AllCensorable(cls, WithWordDeleted(words, word))
  {
    if WordFormValid(word) {
      AcceptedWordLowersToLetters(word);
    }
  }

  /**
   * The word page never puts an empty entry on the list: the form accepts
   * only words of two or more letters, and deleting only drops entries.
   */
  lemma UpdatesKeepNoEmptyWords(words: seq<string>, word: string)
    requires NoEmptyWords(words)
    ensures WordFormValid(word) ==> NoEmptyWords(WithWordAdded(words, word))
    ensures NoEmptyWords(WithWordDeleted(words, word))
  {
    if WordFormValid(word) {
      AcceptedWordLowersToLetters(word);
      var added := WithWordAdded(words, word);
      forall k | 0 <= k < |added|
        ensures |added[k]| > 0
      {
        assert added[k] in added;
      }
    }
    var deleted := WithWordDeleted(words, word);
    forall k | 0 <= k < |deleted|
      ensures |deleted[k]| > 0
    {
      assert deleted[k] in deleted;
    }
  }

  /** The description's `onChange`: the typed text through the dialog's `censorText`, whose `\b` is ASCII. */
  function CensorDescription(words: seq<string>, typed: string): (r: string)
    ensures Masks(r, typed)
    ensures words == [] ==> r == typed
  {
    CensorText(AsciiWord, words, typed)
  }

  /**
   * Each forbidden word made of ASCII word characters, standing as an ASCII
   * whole word in the description in any letter case, is masked completely,
   * whatever else the list holds (a Lithuanian word included), as long as
   * no entry is empty.
   */
  lemma ForbiddenWordMaskedInDescription(words: seq<string>, typed: string, l: nat, i: nat)
    requires l < |words| && WordOf(AsciiWord, words[l]) && NoEmptyWords(words)
    requires i <= |typed| && MatchesAt(AsciiWord, words[l], typed, i)
    ensures forall j :: i <= j < i + |words[l]| ==> CensorDescription(words, typed)[j] == '*'
  {
    WholeWordCensored(AsciiWord, words, typed, l, i);
  }

  /** With "žodis" added to the built-in list, the dialog still masks the built-in word "keiksmas1". */
  lemma MixedListMasksAsciiWord()
    ensures CensorDescription(["žodis", "keiksmas1"], "keiksmas1") == "*********"
  {
    var words, t := ["žodis", "keiksmas1"], "keiksmas1";
    assert MatchesAt(AsciiWord, words[1], t, 0) by {
      assert t[0..9] == words[1];
    }
    ForbiddenWordMaskedInDescription(words, t, 1, 0);
  }

  /** The word form accepts "žodis", and the description field leaves it standing alone uncensored. */
  lemma DescriptionKeepsLithuanianWord()
    ensures WordFormValid("žodis")
    ensures CensorDescription(WithWordAdded([], "žodis"), "žodis") == "žodis"
  {
    assert Lower("žodis") == "žodis";
    assert WithWordAdded([], "žodis") == ["žodis"];
    LithuanianWordMissedAsWritten();
  }

  /** The description censor with letters counted as word characters. */
  function CensorDescriptionCorrected(words: seq<string>, typed: string): (r: string)
    ensures Masks(r, typed)
    ensures words == [] ==> r == typed
  {
    CensorText(LatinLetters, words, typed)
  }

  /**
   * With letters as word characters, every word the word page can put on the
   * list (see `UpdatesKeepCensorable`) is a run of word characters, and each
   * listed word standing as a whole word is masked completely.
   */
  lemma ForbiddenWordMaskedWhenCorrected(words: seq<string>, typed: string, l: nat, i: nat)
    requires l < |words| && WordOf(LatinLetters, words[l]) && NoEmptyWords(words)
    requires i <= |typed| && MatchesAt(LatinLetters, words[l], typed, i)
    ensures forall j :: i <= j < i + |words[l]| ==> CensorDescriptionCorrected(words, typed)[j] == '*'
  {
    WholeWordCensored(LatinLetters, words, typed, l, i);
  }
}

/**
 * The public report form (src/components/report-fault-form.tsx): its rules and
 * its own copy of the category translation table. Submitting only waits and
 * shows a message.
 */
module ReportFaultForm {
  import opened Wrappers
  import opened FaultTypes

  datatype ReportForm = ReportForm(
    reporterName: string,
    reporterEmail: string,
    address: string,
    faultType: string,
    description: string)

  /** The type rule: electricity, plumbing, heating or general. */
  predicate TypeAccepted(key: string)
  {
    key == "electricity" || key == "plumbing" || key == "heating" || key == "general"
  }

  /** `formSchema` of the report form. */
  predicate ReportFormValid(isEmail: string -> bool, form: ReportForm)
  {
    && |form.reporterName| >= 2
    && isEmail(form.reporterEmail)
    && |form.address| >= 5
    && TypeAccepted(form.faultType)
    && 10 <= |form.description| <= 500
  }

  /** The form's local translation table, looked up by key. */
  function ReportTranslation(key: string): (r: Option<string>)
    ensures r.Some? ==> r.value != []
  {
    if key == "electricity" then Some("Elektra")
    else if key == "plumbing" then Some("Santechnika")
    else if key == "heating" then Some("Šildymas")
    else if key == "general" then Some("Bendri gedimai")
    else None
  }

  /** Exactly the accepted types have a translation, and it is the shared table's label for that category. */
  lemma AcceptedTypesAreTranslated(key: string)
    ensures TypeAccepted(key) <==> ReportTranslation(key).Some?
    ensures TypeAccepted(key) <==> ParseFaultType(key).Some?
    ensures ParseFaultType(key).Some? ==> ReportTranslation(key) == Some(Translation(ParseFaultType(key).value))
  {
  }

  /** An accepted report meets the length bounds and names a category with a label in both tables. */
  lemma AcceptedReportIsLabelled(isEmail: string -> bool, form: ReportForm)
    requires ReportFormValid(isEmail, form)
    ensures 2 <= |form.reporterName| && 5 <= |form.address| && 10 <= |form.description| <= 500
    ensures ParseFaultType(form.faultType).Some?
    ensures ReportTranslation(form.faultType) == Some(Translation(ParseFaultType(form.faultType).value))
  {
    AcceptedTypesAreTranslated(form.faultType);
  }
}

/**
 * The worker form (src/app/dashboard/workers/components/workers-client.tsx):
 * its rules and the specialty checkboxes, each of which appends its key when
 * checked and filters it out when unchecked.
 */
module WorkerForm {
  import opened Seqs
  import opened FaultTypes

  datatype WorkerFormData = WorkerFormData(
    name: string,
    email: string,
    password: string,
    specialty: seq<string>)

  /** `value.some(item => item)`: some entry is a non-empty string. */
  predicate SpecialtyChosen(specialty: seq<string>)
  {
    exists j :: 0 <= j < |specialty| && specialty[j] != ""
  }

  /** `workerFormSchema`. */
  predicate WorkerFormValid(isEmail: string -> bool, form: WorkerFormData)
  {
    && |form.name| >= 2
    && isEmail(form.email)
    && |form.password| >= 8
    && SpecialtyChosen(form.specialty)
  }

  /** Every entry is the key of a category: what the category checkboxes put in the list. */
  predicate CategoryKeys(keys: seq<string>)
  {
    forall v :: v in keys ==> ParseFaultType(v).Some?
  }

  /** The categories the specialty keys spell, in order; other entries are skipped. */
  function Specialties(keys: seq<string>): (r: seq<FaultType>)
    ensures |r| <= |keys|
    ensures forall t :: t in r <==> TypeName(t) in keys
  {
    if keys == [] then []
    else
      var rest := Specialties(keys[1..]);
      assert forall v :: v in keys <==> v == keys[0] || v in keys[1..];
      match ParseFaultType(keys[0])
      case None => rest
      case Some(t) => [t] + rest
  }

  /**
   * An accepted worker form whose entries come from the category checkboxes
   * names at least one category, every checked category among them.
   */
  lemma AcceptedWorkerFormHasSpecialty(isEmail: string -> bool, form: WorkerFormData)
    requires WorkerFormValid(isEmail, form) && CategoryKeys(form.specialty)
    ensures |Specialties(form.specialty)| > 0
    ensures forall t: FaultType :: TypeName(t) in form.specialty ==> t in Specialties(form.specialty)
  {
    var j :| 0 <= j < |form.specialty| && form.specialty[j] != "";
    var t := ParseFaultType(form.specialty[j]).value;
    assert TypeName(t) in form.specialty;
  }

  /** Checking or unchecking a category's box keeps every entry a category key. */
  lemma ToggleKeepsCategoryKeys(current: seq<string>, t: FaultType, checked: bool)
    requires CategoryKeys(current)
    ensures CategoryKeys(ToggleSpecialty(current, TypeName(t), checked))
  {
    ParseTypeName(t);
  }

  /** `onCheckedChange` of the checkbox for `item`. */
  function ToggleSpecialty(current: seq<string>, item: string, checked: bool): (r: seq<string>)
    ensures checked ==> |r| == |current| + 1 && r[..|current|] == current && r[|current|] == item
    ensures !checked ==> item !in r && forall v :: v in r <==> v in current && v != item
  {
    if checked then current + [item] else Filter((v: string) => v != item, current)
  }

  /** Unchecking keeps the other entries in their order: it distributes over concatenation. */
  lemma UncheckKeepsOrder(a: seq<string>, b: seq<string>, item: string)
    ensures ToggleSpecialty(a + b, item, false) == ToggleSpecialty(a, item, false) + ToggleSpecialty(b, item, false)
  {
    FilterConcat((v: string) => v != item, a, b);
  }

  /** Unchecking an entry that is not listed changes nothing. */
  lemma UncheckAbsentChangesNothing(current: seq<string>, item: string)
    requires item !in current
    ensures ToggleSpecialty(current, item, false) == current
  {
    FilterKeepsAll((v: string) => v != item, current);
  }

  /** Checking and then unchecking an entry that was not listed restores the list. */
  lemma CheckThenUncheckRestores(current: seq<string>, item: string)
    requires item !in current
    ensures ToggleSpecialty(ToggleSpecialty(current, item, true), item, false) == current
  {
    var p := (v: string) => v != item;
    FilterConcat(p, current, [item]);
    FilterKeepsAll(p, current);
    assert Filter(p, [item]) == [];
  }

  /** Checking any category's box satisfies the specialty rule. */
  lemma CheckingChoosesSpecialty(current: seq<string>, t: FaultType)
    ensures SpecialtyChosen(ToggleSpecialty(current, TypeName(t), true))
  {
    var r := ToggleSpecialty(current, TypeName(t), true);
    assert r[|current|] != "";
  }
}
