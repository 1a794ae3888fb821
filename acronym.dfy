/**
 * The acronym builder: the sentence is split at every single space, the
 * pieces that are exactly one of the excluded words are dropped, the first
 * character of every remaining piece is taken, and the result is
 * upper-cased. A remaining piece that is empty has no first character, and
 * the whole call fails with an index error.
 */
module Acronym {
  import opened Wrappers
  import opened AsciiText

  const Space: char := ' '

  datatype Error = IndexError

  /** The number of occurrences of `c` in `s`. */
  function Occurrences(s: string, c: char): (r: nat)
    ensures c !in s ==> r == 0
  {
    if s == [] then 0
    else
      assert s == [s[0]] + s[1..];
      (if s[0] == c then 1 else 0) + Occurrences(s[1..], c)
  }

  /** Occurrences add up over concatenation. */
  lemma {:induction false} OccurrencesAppend(a: string, b: string, c: char)
    ensures Occurrences(a + b, c) == Occurrences(a, c) + Occurrences(b, c)
  {
    if a == [] {
      assert a + b == b;
    } else {
      assert (a + b)[0] == a[0];
      assert (a + b)[1..] == a[1..] + b;
      OccurrencesAppend(a[1..], b, c);
    }
  }

  /**
   * `s.split(sep)`: the pieces between occurrences of `sep`, from left to
   * right, empty pieces included; one more piece than separators.
   */
  function Split(s: string, sep: char): (r: seq<string>)
    ensures |r| == Occurrences(s, sep) + 1
    ensures forall i :: 0 <= i < |r| ==> sep !in r[i]
  {
    if s == [] then [""]
    else
      var rest := Split(s[1..], sep);
      if s[0] == sep then [""] + rest
      else [[s[0]] + rest[0]] + rest[1..]
  }

  /** `sep.join(pieces)`, the inverse of `Split`. */
  function Join(pieces: seq<string>, sep: char): string {
    if |pieces| <= 1 then (if pieces == [] then "" else pieces[0])
    else pieces[0] + [sep] + Join(pieces[1..], sep)
  }

  /** Joining separator-free pieces puts exactly one separator between neighbours. */
  lemma {:induction false} JoinSeparators(pieces: seq<string>, sep: char)
    requires |pieces| >= 1
    requires forall i :: 0 <= i < |pieces| ==> sep !in pieces[i]
    ensures Occurrences(Join(pieces, sep), sep) == |pieces| - 1
  {
    if |pieces| > 1 {
      JoinSeparators(pieces[1..], sep);
      OccurrencesAppend(pieces[0] + [sep], Join(pieces[1..], sep), sep);
      OccurrencesAppend(pieces[0], [sep], sep);
    }
  }

  /** The pieces that are not exactly one of `excluded`, in order. */
  function Kept(pieces: seq<string>, excluded: seq<string>): (r: seq<string>)
    ensures |r| <= |pieces|
    ensures forall w :: w in r <==> w in pieces && w !in excluded
  {
    if pieces == [] then []
    else (if pieces[0] in excluded then [] else [pieces[0]]) + Kept(pieces[1..], excluded)
  }

  /** No word is empty, so each has a first character. */
  predicate NoEmptyWord(words: seq<string>) {
    forall i :: 0 <= i < |words| ==> words[i] != ""
  }

  /** The first character of every word, or None when some word is empty. */
  function Initials(words: seq<string>): (r: Option<string>)
    ensures r.Some? <==> NoEmptyWord(words)
    ensures r.Some? ==> |r.value| == |words|
    ensures r.Some? ==> forall i :: 0 <= i < |words| ==> r.value[i] == words[i][0]
  {
    if words == [] then Some("")
    else if words[0] == "" then None
    else match Initials(words[1..])
      case None => None
      case Some(rest) => Some([words[0][0]] + rest)
  }

  /**
   * `make_acronym(sentence, excluded_words)`. It succeeds exactly when no
   * kept piece is empty, and then has one character per kept piece; which
   * character is `AcronymLetters`.
   */
  function MakeAcronym(sentence: string, excluded: seq<string>): (r: Result<string, Error>)
    ensures r.Success? <==> NoEmptyWord(Kept(Split(sentence, Space), excluded))
    ensures r.Success? ==> |r.value| == |Kept(Split(sentence, Space), excluded)|
  {
    var kept := Kept(Split(sentence, Space), excluded);
    var letters := Initials(kept);
    if letters.None? then Failure(IndexError) else Success(Upper(letters.value))
  }

  /** Splitting at a separator splits both sides independently. */
  lemma {:induction false} SplitAround(a: string, sep: char, b: string)
    ensures Split(a + [sep] + b, sep) == Split(a, sep) + Split(b, sep)
  {
    if a == [] {
      assert [] + [sep] + b == [sep] + b;
      assert ([sep] + b)[1..] == b;
    } else {
      assert (a + [sep] + b)[1..] == a[1..] + [sep] + b;
      SplitAround(a[1..], sep, b);
    }
  }

  /** Joining the pieces of a split gives back the string. */
  lemma {:induction false} JoinSplit(s: string, sep: char)
    ensures Join(Split(s, sep), sep) == s
  {
    if s != [] {
      JoinSplit(s[1..], sep);
      var rest := Split(s[1..], sep);
      if s[0] == sep {
        assert [""] + rest == [""] + rest;
        if |rest| == 1 {
          assert Join([""] + rest, sep) == "" + [sep] + rest[0];
        } else {
          assert ([""] + rest)[1..] == rest;
        }
        assert s == [sep] + s[1..];
      } else {
        var r := [[s[0]] + rest[0]] + rest[1..];
        if |rest| == 1 {
          assert Join(r, sep) == [s[0]] + rest[0];
        } else {
          assert r[1..] == rest[1..];
          assert Join(rest, sep) == rest[0] + [sep] + Join(rest[1..], sep);
        }
        assert s == [s[0]] + s[1..];
      }
    }
  }

  /** Splitting pieces joined with a separator they do not contain gives the pieces back. */
  lemma {:induction false} SplitJoin(pieces: seq<string>, sep: char)
    requires |pieces| >= 1
    requires forall i :: 0 <= i < |pieces| ==> sep !in pieces[i]
    ensures Split(Join(pieces, sep), sep) == pieces
  {
    if |pieces| == 1 {
      SplitWithoutSeparator(pieces[0], sep);
    } else {
      SplitJoin(pieces[1..], sep);
      SplitAround(pieces[0], sep, Join(pieces[1..], sep));
      SplitWithoutSeparator(pieces[0], sep);
      assert pieces == [pieces[0]] + pieces[1..];
    }
  }

  /** A string without the separator is a single piece. */
  lemma {:induction false} SplitWithoutSeparator(s: string, sep: char)
    requires sep !in s
    ensures Split(s, sep) == [s]
  {
    if s != [] {
      SplitWithoutSeparator(s[1..], sep);
      assert s == [s[0]] + s[1..];
    }
  }

  /** The letters of the acronym: the upper-cased first character of each kept piece, in order. */
  lemma AcronymLetters(sentence: string, excluded: seq<string>)
    requires MakeAcronym(sentence, excluded).Success?
    ensures var kept := Kept(Split(sentence, Space), excluded);
      forall i :: 0 <= i < |kept| ==> MakeAcronym(sentence, excluded).value[i] == UpperChar(kept[i][0])
  {
  }

  /** The acronym contains no lower-case ASCII letter. */
  lemma AcronymHasNoLowercase(sentence: string, excluded: seq<string>)
    requires MakeAcronym(sentence, excluded).Success?
    ensures forall i :: 0 <= i < |MakeAcronym(sentence, excluded).value| ==>
      !IsLowerLetter(MakeAcronym(sentence, excluded).value[i])
  {
    UpperIsCaseMapping(Initials(Kept(Split(sentence, Space), excluded)).value);
  }

  /** Without exclusions nothing is dropped. */
  lemma {:induction false} KeptNothingExcluded(pieces: seq<string>)
    ensures Kept(pieces, []) == pieces
  {
    if pieces != [] {
      KeptNothingExcluded(pieces[1..]);
      assert pieces == [pieces[0]] + pieces[1..];
    }
  }

  /** With no excluded words the acronym has one letter per space-separated piece. */
  lemma OneLetterPerPiece(sentence: string)
    requires MakeAcronym(sentence, []).Success?
    ensures |MakeAcronym(sentence, []).value| == Occurrences(sentence, Space) + 1
  {
    KeptNothingExcluded(Split(sentence, Space));
  }

  /** An empty piece that is not excluded makes the call fail. */
  lemma EmptyPieceFails(sentence: string, excluded: seq<string>)
    requires "" in Split(sentence, Space) && "" !in excluded
    ensures MakeAcronym(sentence, excluded) == Failure(IndexError)
  {
    var kept := Kept(Split(sentence, Space), excluded);
    assert "" in kept;
    var i :| 0 <= i < |kept| && kept[i] == "";
  }

  /**
   * An empty sentence, a leading space, a trailing space and a double space
   * each produce an empty piece, so each fails unless "" is excluded.
   */
  lemma StraySpacesFail(a: string, b: string, excluded: seq<string>)
    requires "" !in excluded
    ensures MakeAcronym("", excluded) == Failure(IndexError)
    ensures MakeAcronym(" " + a, excluded) == Failure(IndexError)
    ensures MakeAcronym(a + " ", excluded) == Failure(IndexError)
    ensures MakeAcronym(a + "  " + b, excluded) == Failure(IndexError)
  {
    assert Split("", Space) == [""];
    EmptyPieceFails("", excluded);
    SplitAround("", Space, a);
    assert "" + [Space] + a == " " + a;
    EmptyPieceFails(" " + a, excluded);
    SplitAround(a, Space, "");
    assert a + [Space] + "" == a + " ";
    EmptyPieceFails(a + " ", excluded);
    SplitAround(a, Space, " " + b);
    SplitAround("", Space, b);
    assert a + [Space] + (" " + b) == a + "  " + b;
    assert "" + [Space] + b == " " + b;
    assert Split(a + "  " + b, Space) == Split(a, Space) + ([""] + Split(b, Space));
    EmptyPieceFails(a + "  " + b, excluded);
  }

  /** Dropping excluded pieces distributes over concatenation. */
  lemma {:induction false} KeptAppend(a: seq<string>, b: seq<string>, excluded: seq<string>)
    ensures Kept(a + b, excluded) == Kept(a, excluded) + Kept(b, excluded)
  {
    if a == [] {
      assert a + b == b;
    } else {
      var head := if a[0] in excluded then [] else [a[0]];
      assert (a + b)[0] == a[0];
      assert (a + b)[1..] == a[1..] + b;
      KeptAppend(a[1..], b, excluded);
      calc {
        Kept(a + b, excluded);
        head + Kept(a[1..] + b, excluded);
        head + (Kept(a[1..], excluded) + Kept(b, excluded));
        (head + Kept(a[1..], excluded)) + Kept(b, excluded);
      }
    }
  }

  /** Taking initials distributes over concatenation; an empty word on either side fails the whole. */
  lemma InitialsAppend(a: seq<string>, b: seq<string>)
    ensures Initials(a + b).Some? <==> Initials(a).Some? && Initials(b).Some?
    ensures Initials(a + b).Some? ==> Initials(a + b).value == Initials(a).value + Initials(b).value
  {
    var ab := a + b;
    if Initials(a).Some? && Initials(b).Some? {
      forall i | 0 <= i < |ab| ensures ab[i] != "" {
        if i >= |a| {
          assert ab[i] == b[i - |a|];
        }
      }
      var x, y, z := Initials(a).value, Initials(b).value, Initials(ab).value;
      forall i | 0 <= i < |z| ensures z[i] == (x + y)[i] {
        if i >= |a| {
          assert ab[i] == b[i - |a|];
        }
      }
      assert z == x + y;
    } else if Initials(a).None? {
      var i :| 0 <= i < |a| && a[i] == "";
      assert ab[i] == "";
    } else {
      var i :| 0 <= i < |b| && b[i] == "";
      assert ab[|a| + i] == "";
    }
  }

  /** Upper-casing distributes over concatenation. */
  lemma UpperAppend(a: string, b: string)
    ensures Upper(a + b) == Upper(a) + Upper(b)
  {
    assert forall i :: 0 <= i < |a + b| ==> Upper(a + b)[i] == (Upper(a) + Upper(b))[i];
  }

  /**
   * The acronym of two parts joined by a space succeeds exactly when the
   * acronym of each part does, and is then the two acronyms one after the other.
   */
  lemma AcronymAround(a: string, b: string, excluded: seq<string>)
    ensures MakeAcronym(a + " " + b, excluded).Success? <==>
      MakeAcronym(a, excluded).Success? && MakeAcronym(b, excluded).Success?
    ensures MakeAcronym(a + " " + b, excluded).Success? ==>
      MakeAcronym(a + " " + b, excluded).value ==
        MakeAcronym(a, excluded).value + MakeAcronym(b, excluded).value
  {
    assert a + " " + b == a + [Space] + b;
    SplitAround(a, Space, b);
    var ka, kb := Kept(Split(a, Space), excluded), Kept(Split(b, Space), excluded);
    KeptAppend(Split(a, Space), Split(b, Space), excluded);
    InitialsAppend(ka, kb);
    if Initials(ka).Some? && Initials(kb).Some? {
      UpperAppend(Initials(ka).value, Initials(kb).value);
    }
  }

  /** A single word is its own piece: it gives its upper-cased first letter, or nothing when excluded. */
  lemma AcronymOfWord(w: string, excluded: seq<string>)
    requires w != "" && Space !in w
    ensures MakeAcronym(w, excluded) == Success(if w in excluded then "" else [UpperChar(w[0])])
  {
    SplitWithoutSeparator(w, Space);
    assert Kept([w], excluded) == (if w in excluded then [] else [w]) + Kept([], excluded);
    if w in excluded {
      assert Initials([]) == Some("");
      assert Upper("") == "";
    } else {
      assert Initials([w]).value == [w[0]];
      assert Upper([w[0]]) == [UpperChar(w[0])];
    }
  }

  /** Exclusion is exact and comes before upper-casing: "By" is kept although "by" is excluded. */
  lemma ExclusionIsCaseSensitive()
    ensures MakeAcronym("By", ["by"]) == Success("B")
  {
    assert "By" !in ["by"] by { assert "By"[0] != "by"[0]; }
    AcronymOfWord("By", ["by"]);
  }

  /** Appending one more word extends the acronym by that word's letter (or by nothing). */
  lemma AcronymAppendWord(a: string, w: string, excluded: seq<string>, r: string)
    requires MakeAcronym(a, excluded) == Success(r)
    requires w != "" && Space !in w
    ensures MakeAcronym(a + " " + w, excluded) ==
      Success(r + if w in excluded then "" else [UpperChar(w[0])])
  {
    AcronymOfWord(w, excluded);
    AcronymAround(a, w, excluded);
  }

  /** The first four words of the example sentence. */
  lemma LaserFirstWords(w1: string, w2: string, w3: string, w4: string, excluded: seq<string>)
    requires w1 == "light" && w2 == "amplification" && w3 == "by" && w4 == "the"
    requires excluded == ["by", "the", "of"]
    ensures MakeAcronym(w1 + " " + w2 + " " + w3 + " " + w4, excluded) == Success("LA")
  {
    AcronymOfWord(w1, excluded);
    AcronymAppendWord(w1, w2, excluded, "L");
    assert "L" + [UpperChar('a')] == "LA";
    AcronymAppendWord(w1 + " " + w2, w3, excluded, "LA");
    assert "LA" + "" == "LA";
    AcronymAppendWord(w1 + " " + w2 + " " + w3, w4, excluded, "LA");
  }

  /** Words five and six of the example sentence. */
  lemma LaserMiddleWords(s: string, w5: string, w6: string, excluded: seq<string>)
    requires MakeAcronym(s, excluded) == Success("LA")
    requires w5 == "simulated" && w6 == "emission"
    requires excluded == ["by", "the", "of"]
    ensures MakeAcronym(s + " " + w5 + " " + w6, excluded) == Success("LASE")
  {
    AcronymAppendWord(s, w5, excluded, "LA");
    assert "LA" + [UpperChar('s')] == "LAS";
    AcronymAppendWord(s + " " + w5, w6, excluded, "LAS");
    assert "LAS" + [UpperChar('e')] == "LASE";
  }

  /** The last two words of the example sentence. */
  lemma LaserLastWords(s: string, w7: string, w8: string, excluded: seq<string>)
    requires MakeAcronym(s, excluded) == Success("LASE")
    requires w7 == "of" && w8 == "radiation"
    requires excluded == ["by", "the", "of"]
    ensures MakeAcronym(s + " " + w7 + " " + w8, excluded) == Success("LASER")
  {
    AcronymAppendWord(s, w7, excluded, "LASE");
    assert "LASE" + "" == "LASE";
    AcronymAppendWord(s + " " + w7, w8, excluded, "LASE");
    assert "LASE" + [UpperChar('r')] == "LASER";
  }

  /** The example sentence, taken word by word. */
  lemma LaserByWords(w1: string, w2: string, w3: string, w4: string,
                     w5: string, w6: string, w7: string, w8: string, excluded: seq<string>)
    requires w1 == "light" && w2 == "amplification" && w3 == "by" && w4 == "the"
    requires w5 == "simulated" && w6 == "emission" && w7 == "of" && w8 == "radiation"
    requires excluded == ["by", "the", "of"]
    ensures MakeAcronym(w1 + " " + w2 + " " + w3 + " " + w4 + " " + w5 + " " + w6 + " " + w7 + " " + w8,
                        excluded) == Success("LASER")
  {
    var s := w1 + " " + w2 + " " + w3 + " " + w4;
    LaserFirstWords(w1, w2, w3, w4, excluded);
    LaserMiddleWords(s, w5, w6, excluded);
    LaserLastWords(s + " " + w5 + " " + w6, w7, w8, excluded);
  }

  /** The example of the script: LASER. */
  lemma Laser()
    ensures MakeAcronym("light amplification by the simulated emission of radiation",
                        ["by", "the", "of"]) == Success("LASER")
  {
    assert "light" + " " + "amplification" == "light amplification";
    assert "light amplification" + " " + "by" == "light amplification by";
    assert "light amplification by" + " " + "the" == "light amplification by the";
    assert "light amplification by the" + " " + "simulated" == "light amplification by the simulated";
    assert "light amplification by the simulated" + " " + "emission" ==
      "light amplification by the simulated emission";
    assert "light amplification by the simulated emission" + " " + "of" ==
      "light amplification by the simulated emission of";
    assert "light amplification by the simulated emission of" + " " + "radiation" ==
      "light amplification by the simulated emission of radiation";
    LaserByWords("light", "amplification", "by", "the", "simulated", "emission", "of", "radiation",
                 ["by", "the", "of"]);
  }
}
