/**
 * The forbidden-word list (src/context/forbidden-words-context.tsx): a list
 * held in component state, replaced by `addForbiddenWord` and
 * `deleteForbiddenWord`. Updates are taken one at a time.
 */
module ForbiddenWords {
  import opened Seqs
  import opened Text

  const InitialForbiddenWords: seq<string> := ["keiksmas1", "keiksmas2", "netinkamaszodis"]

  /** Every entry is lower case and listed once. */
  predicate WellFormed(words: seq<string>)
  {
    NoDuplicates(words) && forall w :: w in words ==> IsLowerCase(w)
  }

  /** The list after `addForbiddenWord(word)`: the lower-cased word is listed, in front when it is new. */
  function WithWordAdded(words: seq<string>, word: string): (r: seq<string>)
    ensures Lower(word) in r
    ensures forall w :: w in r <==> w in words || w == Lower(word)
    ensures |r| == |words| + (if Lower(word) in words then 0 else 1)
    ensures r[|r| - |words|..] == words
  {
    var lowerCaseWord := Lower(word);
    if lowerCaseWord in words then words else [lowerCaseWord] + words
  }

  /** The list after `deleteForbiddenWord(word)`: every entry equal to the lower-cased word is gone. */
  function WithWordDeleted(words: seq<string>, word: string): (r: seq<string>)
    ensures Lower(word) !in r
    ensures forall w :: w in r <==> w in words && w != Lower(word)
    ensures Lower(word) !in words ==> r == words
  {
    var p := (w: string) => w != Lower(word);
    if Lower(word) !in words then FilterKeepsAll(p, words); Filter(p, words)
    else Filter(p, words)
  }

  /** Adding keeps the list lower case and free of duplicates. */
  lemma AddKeepsWellFormed(words: seq<string>, word: string)
    requires WellFormed(words)
    ensures WellFormed(WithWordAdded(words, word))
  {
    LowerIsLowerCase(word);
    var r := WithWordAdded(words, word);
    if Lower(word) !in words {
      forall i, j | 0 <= i < j < |r| ensures r[i] != r[j] {
        assert r[j] == words[j - 1];
        if i > 0 {
          assert r[i] == words[i - 1];
        }
      }
    }
  }

  /** Deleting keeps the list lower case and free of duplicates. */
  lemma DeleteKeepsWellFormed(words: seq<string>, word: string)
    requires WellFormed(words)
    ensures WellFormed(WithWordDeleted(words, word))
  {
    FilterNoDuplicates((w: string) => w != Lower(word), words);
  }

  /** Deleting keeps the surviving entries in their relative order. */
  lemma DeleteKeepsOrder(a: seq<string>, b: seq<string>, word: string)
    ensures WithWordDeleted(a + b, word) == WithWordDeleted(a, word) + WithWordDeleted(b, word)
  {
    FilterConcat((w: string) => w != Lower(word), a, b);
  }

  /** Deleting a word just added restores the list it was added to. */
  lemma DeleteUndoesAdd(words: seq<string>, word: string)
    requires Lower(word) !in words
    ensures WithWordDeleted(WithWordAdded(words, word), word) == words
  {
    var p := (w: string) => w != Lower(word);
    assert ([Lower(word)] + words)[1..] == words;
    FilterKeepsAll(p, words);
  }

  /** Deleting a listed entry of a well-formed list removes that one entry and nothing else. */
  lemma DeleteListedRemovesOne(words: seq<string>, k: nat)
    requires WellFormed(words) && k < |words|
    ensures WithWordDeleted(words, words[k]) == words[..k] + words[k + 1..]
  {
    assert words[k] in words;
    DeleteSingleEntry(words, k, words[k]);
  }

  lemma DeleteSingleEntry(words: seq<string>, k: nat, word: string)
    requires NoDuplicates(words) && k < |words| && Lower(word) == words[k]
    ensures WithWordDeleted(words, word) == words[..k] + words[k + 1..]
  {
    FilterDropsOne((w: string) => w != Lower(word), words, k);
  }

  /** The list as a piece of component state. */
  class ForbiddenWordList {
    var words: seq<string>

    predicate Valid()
      reads this
    {
      WellFormed(words)
    }

    /** The provider starts from the built-in list. */
    constructor ()
      ensures Valid() && words == InitialForbiddenWords
    {
      words := InitialForbiddenWords;
      InitialWordsWellFormed();
    }

    /** `addForbiddenWord`. */
    method Add(word: string)
      requires Valid()
      modifies this
      ensures Valid()
      ensures words == WithWordAdded(old(words), word)
    {
      AddKeepsWellFormed(words, word);
      var lowerCaseWord := Lower(word);
      if lowerCaseWord !in words {
        words := [lowerCaseWord] + words;
      }
    }

    /** `deleteForbiddenWord`. */
    method Delete(wordToDelete: string)
      requires Valid()
      modifies this
      ensures Valid()
      ensures words == WithWordDeleted(old(words), wordToDelete)
    {
      DeleteKeepsWellFormed(words, wordToDelete);
      words := Filter((w: string) => w != Lower(wordToDelete), words);
    }
  }

  /** The built-in words are lower case and distinct. */
  lemma InitialWordsWellFormed()
    ensures WellFormed(InitialForbiddenWords)
  {
    var ws := InitialForbiddenWords;
    assert ws[0][8] != ws[1][8];
    assert |ws[0]| != |ws[2]| && |ws[1]| != |ws[2]|;
    forall w | w in ws ensures IsLowerCase(w) {
      assert forall i :: 0 <= i < |w| ==> !IsUpperLetter(w[i]);
    }
  }
}

/**
 * The page that edits the list
 * (src/app/dashboard/forbidden-words/components/forbidden-words-client.tsx):
 * its form rule, the duplicate guard of `onSubmit` and `handleDeleteClick`.
 */
module ForbiddenWordsClient {
  import opened Text
  import opened ForbiddenWords

  /** A character of `[a-zA-ZĄ-ž]`: ASCII letters and U+0104..U+017E. */
  predicate IsWordFormChar(c: char)
  {
    'a' <= c <= 'z' || 'A' <= c <= 'Z' || 0x104 <= c as int <= 0x17E
  }

  /** `wordFormSchema`: at least two characters, all from the letter class. */
  predicate WordFormValid(word: string)
  {
    |word| >= 2 && forall i :: 0 <= i < |word| ==> IsWordFormChar(word[i])
  }

  /**
   * A word the form accepts still has at least two characters once lower-cased,
   * all of them letters, so it holds no character a regular expression treats specially.
   */
  lemma AcceptedWordLowersToLetters(word: string)
    requires WordFormValid(word)
    ensures |Lower(word)| >= 2
    ensures forall i :: 0 <= i < |Lower(word)| ==> IsLetter(Lower(word)[i])
  {
  }

  /** The first two built-in words hold a digit, so the form itself would refuse them. */
  lemma InitialWordsFailTheForm()
    ensures forall w :: w in InitialForbiddenWords[..2] ==> !WordFormValid(w)
  {
    assert !IsWordFormChar(InitialForbiddenWords[0][8]);
    assert !IsWordFormChar(InitialForbiddenWords[1][8]);
  }

  datatype SubmitOutcome = AlreadyListed | Added

  /**
   * `onSubmit`: a word whose lower-case form is listed is refused and the list
   * stays; any other word is handed to the list's add.
   */
  method OnSubmit(list: ForbiddenWordList, word: string) returns (outcome: SubmitOutcome)
    requires list.Valid() && WordFormValid(word)
    modifies list
    ensures list.Valid()
    ensures outcome == AlreadyListed <==> Lower(word) in old(list.words)
    ensures outcome == AlreadyListed ==> list.words == old(list.words)
    ensures outcome == Added ==> list.words == [Lower(word)] + old(list.words)
  {
    if Lower(word) in list.words {
      return AlreadyListed;
    }
    list.Add(word);
    return Added;
  }

  /** `handleDeleteClick`: deleting a displayed entry removes exactly that entry. */
  method HandleDeleteClick(list: ForbiddenWordList, k: nat)
    requires list.Valid() && k < |list.words|
    modifies list
    ensures list.Valid()
    ensures list.words == old(list.words[..k] + list.words[k + 1..])
  {
    var word := list.words[k];
    DeleteListedRemovesOne(list.words, k);
    list.Delete(word);
  }
}
