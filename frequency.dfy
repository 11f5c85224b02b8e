/**
 * The frequency list the Huffman coder builds before its tree
 * (`makeSortedList`): one entry per ASCII symbol that occurs in the text, in
 * code-point order, with a weight-0 partner symbol added when only one symbol
 * occurs, then sorted by weight.  Weights are occurrence counts.
 */
module Frequency {
  import opened HuffmanTree

  /** How often `c` occurs in `text`. */
  function Occurrences(text: seq<Symbol>, c: Symbol): nat {
    multiset(text)[c]
  }

  /** The entries of the symbols below `n` that occur in `text`, in code-point order. */
  function Observed(text: seq<Symbol>, n: nat): seq<CharFreq>
    requires n <= 128
  {
    if n == 0 then []
    else
      var c: Symbol := n - 1;
      Observed(text, n - 1) + (if Occurrences(text, c) > 0 then [CharFreq(c, Occurrences(text, c))] else [])
  }

  /** The symbol added next to the only symbol of a text: the next code point, 127 wrapping to 0. */
  function Partner(c: Symbol): (p: Symbol)
    ensures p != c
  {
    if c == 127 then 0 else c + 1
  }

  /** A single entry gets a weight-0 partner, so that the tree has two leaves. */
  function WithPartner(l: seq<CharFreq>): seq<CharFreq> {
    if |l| == 1 then l + [CharFreq(Partner(l[0].character), 0)] else l
  }

  predicate Sorted(l: seq<CharFreq>) {
    forall i, j :: 0 <= i < j < |l| ==> l[i].count <= l[j].count
  }

  predicate DistinctSymbols(l: seq<CharFreq>) {
    forall i, j :: 0 <= i < j < |l| ==> l[i].character != l[j].character
  }

  /** Puts `e` in front of the first entry of `s` that weighs at least as much. */
  function InsertByCount(e: CharFreq, s: seq<CharFreq>): (r: seq<CharFreq>)
    ensures multiset(r) == multiset(s) + multiset{e}
  {
    if s == [] then [e]
    else if e.count <= s[0].count then [e] + s
    else
      assert s == [s[0]] + s[1..];
      [s[0]] + InsertByCount(e, s[1..])
  }

  /** Inserting into a sorted list keeps it sorted. */
  lemma {:induction false} InsertSorted(e: CharFreq, s: seq<CharFreq>)
    requires Sorted(s)
    ensures Sorted(InsertByCount(e, s))
  {
    if s != [] && e.count > s[0].count {
      InsertSorted(e, s[1..]);
      InsertBounded(e, s[1..], s[0].count);
      ConsSorted(s[0], InsertByCount(e, s[1..]));
    }
  }

  /** A lower bound on the weights of a list and of `e` bounds the list with `e` inserted. */
  lemma InsertBounded(e: CharFreq, s: seq<CharFreq>, b: nat)
    requires b <= e.count && forall i :: 0 <= i < |s| ==> b <= s[i].count
    ensures forall x | x in InsertByCount(e, s) :: b <= x.count
  {
    forall x | x in InsertByCount(e, s) ensures b <= x.count {
      assert x in multiset(InsertByCount(e, s));
      if x != e {
        assert x in multiset(s);
      }
    }
  }

  lemma ConsSorted(a: CharFreq, rest: seq<CharFreq>)
    requires Sorted(rest) && forall x | x in rest :: a.count <= x.count
    ensures Sorted([a] + rest)
  {
    var r := [a] + rest;
    forall i, j | 0 <= i < j < |r| ensures r[i].count <= r[j].count {
      assert r[j] == rest[j - 1];
      if i > 0 {
        assert r[i] == rest[i - 1];
      }
    }
  }

  /**
   * `Collections.sort` on the list: a stable sort by weight, here an
   * insertion sort that places each entry before the later entries of equal
   * weight.
   */
  function SortByCount(s: seq<CharFreq>): (r: seq<CharFreq>)
    ensures multiset(r) == multiset(s)
  {
    if s == [] then []
    else
      assert s == [s[0]] + s[1..];
      InsertByCount(s[0], SortByCount(s[1..]))
  }

  lemma {:induction false} SortSorted(s: seq<CharFreq>)
    ensures Sorted(SortByCount(s))
  {
    if s != [] {
      SortSorted(s[1..]);
      InsertSorted(s[0], SortByCount(s[1..]));
    }
  }

  /** The sorted frequency list of a text, before the removal pass. */
  function FrequencyList(text: seq<Symbol>): seq<CharFreq> {
    SortByCount(WithPartner(Observed(text, 128)))
  }

  /** Every character of the text is the same one. */
  predicate Uniform(text: seq<Symbol>) {
    |text| > 0 && forall i :: 0 <= i < |text| ==> text[i] == text[0]
  }

  /** Symbols with an entry in the list: those that occur, and the partner of the only one. */
  predicate Present(text: seq<Symbol>, c: Symbol) {
    Occurrences(text, c) > 0 || (Uniform(text) && c == Partner(text[0]))
  }

  /** The removal pass: the entries whose symbol is marked present, in order. */
  function KeepPresent(present: seq<bool>, l: seq<CharFreq>): (r: seq<CharFreq>)
    requires |present| == 128
    ensures forall e :: e in r <==> e in l && present[e.character]
  {
    if l == [] then []
    else
      assert forall e :: e in l <==> e == l[0] || e in l[1..];
      (if present[l[0].character] then [l[0]] else []) + KeepPresent(present, l[1..])
  }

  /** The removal pass keeps a list whose every symbol is present as it is. */
  lemma {:induction false} KeepAllPresent(present: seq<bool>, l: seq<CharFreq>)
    requires |present| == 128 && forall i :: 0 <= i < |l| ==> present[l[i].character]
    ensures KeepPresent(present, l) == l
  {
    if l != [] {
      KeepAllPresent(present, l[1..]);
      assert [l[0]] + l[1..] == l;
    }
  }

  lemma {:induction false} ObservedEntries(text: seq<Symbol>, n: nat)
    requires n <= 128
    ensures forall e :: e in Observed(text, n) <==> e.character < n && e.count == Occurrences(text, e.character) > 0
    ensures forall i, j :: 0 <= i < j < |Observed(text, n)| ==> Observed(text, n)[i].character < Observed(text, n)[j].character
  {
    if n > 0 {
      ObservedEntries(text, n - 1);
    }
  }

  /** A text whose only symbol is `c` holds it once per character. */
  lemma {:induction false} UniformOccurrences(text: seq<Symbol>)
    requires Uniform(text)
    ensures Occurrences(text, text[0]) == |text|
    ensures forall c: Symbol :: c != text[0] ==> Occurrences(text, c) == 0
  {
    if |text| > 1 {
      var tail := text[1..];
      assert Uniform(tail) && tail[0] == text[0] by {
        forall i | 0 <= i < |tail| ensures tail[i] == text[0] {
          assert tail[i] == text[i + 1];
        }
      }
      UniformOccurrences(tail);
      assert text == [text[0]] + tail;
    } else {
      assert text == [text[0]];
    }
  }

  /** Nothing is observed below `n` when no symbol below `n` occurs. */
  lemma {:induction false} ObservedNone(text: seq<Symbol>, n: nat)
    requires n <= 128 && forall c: Symbol :: c < n ==> Occurrences(text, c) == 0
    ensures Observed(text, n) == []
  {
    if n > 0 {
      ObservedNone(text, n - 1);
    }
  }

  /** Some entry is observed exactly when the text is not empty. */
  lemma ObservedNonEmpty(text: seq<Symbol>)
    ensures |Observed(text, 128)| >= 1 <==> |text| > 0
  {
    var o := Observed(text, 128);
    if |text| > 0 {
      ObservedEntries(text, 128);
      assert text[0] in multiset(text);
      assert CharFreq(text[0], Occurrences(text, text[0])) in o;
    } else {
      assert multiset(text) == multiset{};
      ObservedNone(text, 128);
    }
  }

  /** Below `n`, a text with one symbol observes at most that symbol, counted once per character. */
  lemma {:induction false} ObservedUniformBelow(text: seq<Symbol>, n: nat)
    requires n <= 128 && Uniform(text)
    ensures Observed(text, n) == if text[0] < n then [CharFreq(text[0], |text|)] else []
  {
    if n > 0 {
      ObservedUniformBelow(text, n - 1);
      UniformOccurrences(text);
    }
  }

  /** A text with one symbol observes just that symbol, with the text's length as its count. */
  lemma ObservedUniform(text: seq<Symbol>)
    requires Uniform(text)
    ensures Observed(text, 128) == [CharFreq(text[0], |text|)]
  {
    ObservedUniformBelow(text, 128);
  }

  /** A single observed entry means a single symbol. */
  lemma ObservedOne(text: seq<Symbol>)
    requires |Observed(text, 128)| == 1
    ensures Uniform(text)
  {
    var o := Observed(text, 128);
    ObservedEntries(text, 128);
    ObservedNonEmpty(text);
    forall i | 0 <= i < |text| ensures text[i] == text[0] {
      assert text[i] in multiset(text) && text[0] in multiset(text);
      assert CharFreq(text[i], Occurrences(text, text[i])) in o;
      assert CharFreq(text[0], Occurrences(text, text[0])) in o;
    }
  }

  /** Exactly one entry is observed if and only if the text has one symbol. */
  lemma ObservedSingle(text: seq<Symbol>)
    ensures |Observed(text, 128)| == 1 <==> Uniform(text)
    ensures Uniform(text) ==> Observed(text, 128) == [CharFreq(text[0], |text|)]
    ensures |Observed(text, 128)| >= 1 <==> |text| > 0
  {
    ObservedNonEmpty(text);
    if Uniform(text) {
      ObservedUniform(text);
    }
    if |Observed(text, 128)| == 1 {
      ObservedOne(text);
    }
  }

  /** Inserting an entry whose symbol is new keeps the symbols distinct. */
  lemma {:induction false} InsertDistinct(e: CharFreq, s: seq<CharFreq>)
    requires DistinctSymbols(s) && forall x :: x in s ==> x.character != e.character
    ensures DistinctSymbols(InsertByCount(e, s))
  {
    if s != [] && e.count > s[0].count {
      var rest := InsertByCount(e, s[1..]);
      InsertDistinct(e, s[1..]);
      forall x | x in rest ensures x.character != s[0].character {
        assert x in multiset(rest);
        if x != e {
          assert x in s[1..];
        }
      }
    }
  }

  lemma {:induction false} SortDistinct(s: seq<CharFreq>)
    requires DistinctSymbols(s)
    ensures DistinctSymbols(SortByCount(s))
  {
    if s != [] {
      SortDistinct(s[1..]);
      forall x | x in SortByCount(s[1..]) ensures x.character != s[0].character {
        assert x in multiset(SortByCount(s[1..]));
      }
      InsertDistinct(s[0], SortByCount(s[1..]));
    }
  }

  /** The frequency list is sorted by weight. */
  lemma FrequencyListSorted(text: seq<Symbol>)
    ensures Sorted(FrequencyList(text))
  {
    SortSorted(WithPartner(Observed(text, 128)));
  }

  /** Entries of equal weight appear in increasing code-point order. */
  predicate TiesOrdered(l: seq<CharFreq>)
  {
    forall i, j :: 0 <= i < j < |l| && l[i].count == l[j].count ==> l[i].character < l[j].character
  }

  /** An entry placed before a list whose equal-weight entries all come after it in code-point order. */
  lemma ConsTies(a: CharFreq, rest: seq<CharFreq>)
    requires TiesOrdered(rest)
    requires forall x | x in rest && x.count == a.count :: a.character < x.character
    ensures TiesOrdered([a] + rest)
  {
    var l := [a] + rest;
    forall i, j | 0 <= i < j < |l| && l[i].count == l[j].count ensures l[i].character < l[j].character {
      if i == 0 {
        assert l[j] in rest;
      } else {
        assert l[i] == rest[i - 1] && l[j] == rest[j - 1];
      }
    }
  }

  /**
   * The tail keeps ties ordered, and every entry of the tail that weighs as
   * much as the head comes after it in code-point order.
   */
  lemma TailTies(s: seq<CharFreq>)
    requires s != [] && TiesOrdered(s)
    ensures TiesOrdered(s[1..])
    ensures forall x | x in multiset(s[1..]) && x.count == s[0].count :: s[0].character < x.character
  {
    forall x | x in multiset(s[1..]) && x.count == s[0].count ensures s[0].character < x.character {
      var k :| 0 <= k < |s[1..]| && s[1..][k] == x;
      assert s[k + 1] == x;
    }
  }

  /** Insertion goes before every entry of equal weight, so it keeps ties ordered when `e` precedes them. */
  lemma {:induction false} InsertTies(e: CharFreq, s: seq<CharFreq>)
    requires TiesOrdered(s)
    requires forall x | x in s && x.count == e.count :: e.character < x.character
    ensures TiesOrdered(InsertByCount(e, s))
  {
    if s == [] {
    } else if e.count <= s[0].count {
      ConsTies(e, s);
    } else {
      assert s == [s[0]] + s[1..];
      TailTies(s);
      InsertTies(e, s[1..]);
      var r := InsertByCount(e, s[1..]);
      forall x | x in r && x.count == s[0].count ensures s[0].character < x.character {
        assert x in multiset(r);
      }
      ConsTies(s[0], r);
    }
  }

  /**
   * Sorting by weight is stable: when the entries of equal weight come in
   * code-point order, they still do afterwards.
   */
  lemma {:induction false} SortTies(s: seq<CharFreq>)
    requires TiesOrdered(s)
    ensures TiesOrdered(SortByCount(s))
  {
    if s != [] {
      TailTies(s);
      SortTies(s[1..]);
      var r := SortByCount(s[1..]);
      forall x | x in r && x.count == s[0].count ensures s[0].character < x.character {
        assert x in multiset(r);
      }
      InsertTies(s[0], r);
    }
  }

  /** Before sorting, entries of equal weight are in code-point order. */
  lemma WithPartnerTies(text: seq<Symbol>)
    ensures TiesOrdered(WithPartner(Observed(text, 128)))
  {
    var l := Observed(text, 128);
    ObservedEntries(text, 128);
    if |l| == 1 {
      assert l[0] in l;
      var w := WithPartner(l);
      assert w == [l[0], CharFreq(Partner(l[0].character), 0)];
      assert w[0].count > 0 && w[1].count == 0;
    }
  }

  /**
   * The frequency list orders entries of equal weight by code point, as
   * the stable sort of a list built in code-point order does.
   */
  lemma FrequencyListTies(text: seq<Symbol>)
    ensures forall i, j :: 0 <= i < j < |FrequencyList(text)| && FrequencyList(text)[i].count == FrequencyList(text)[j].count
                 ==> FrequencyList(text)[i].character < FrequencyList(text)[j].character
  {
    WithPartnerTies(text);
    SortTies(WithPartner(Observed(text, 128)));
  }

  /** Before sorting, for a text with one symbol: that symbol and its partner. */
  lemma WithPartnerUniform(text: seq<Symbol>)
    requires Uniform(text)
    ensures forall e :: e in WithPartner(Observed(text, 128)) <==> Present(text, e.character) && e.count == Occurrences(text, e.character)
    ensures DistinctSymbols(WithPartner(Observed(text, 128)))
  {
    ObservedUniform(text);
    UniformOccurrences(text);
    var a, b := CharFreq(text[0], |text|), CharFreq(Partner(text[0]), 0);
    assert WithPartner(Observed(text, 128)) == [a, b];
  }

  /** Before sorting, for any other text: the entries observed. */
  lemma WithPartnerMixed(text: seq<Symbol>)
    requires !Uniform(text)
    ensures forall e :: e in WithPartner(Observed(text, 128)) <==> Present(text, e.character) && e.count == Occurrences(text, e.character)
    ensures DistinctSymbols(WithPartner(Observed(text, 128)))
  {
    if |Observed(text, 128)| == 1 {
      ObservedOne(text);
    }
    ObservedEntries(text, 128);
  }

  /** Before sorting: the present symbols with their counts, each once. */
  lemma WithPartnerEntries(text: seq<Symbol>)
    ensures forall e :: e in WithPartner(Observed(text, 128)) <==> Present(text, e.character) && e.count == Occurrences(text, e.character)
    ensures DistinctSymbols(WithPartner(Observed(text, 128)))
  {
    if Uniform(text) {
      WithPartnerUniform(text);
    } else {
      WithPartnerMixed(text);
    }
  }

  /**
   * The frequency list holds exactly the present symbols, each once, with
   * its number of occurrences (0 for the partner).
   */
  lemma FrequencyListEntries(text: seq<Symbol>)
    ensures forall e :: e in FrequencyList(text) <==> Present(text, e.character) && e.count == Occurrences(text, e.character)
    ensures DistinctSymbols(FrequencyList(text))
  {
    var w := WithPartner(Observed(text, 128));
    WithPartnerEntries(text);
    SortDistinct(w);
    forall e ensures e in FrequencyList(text) <==> e in w {
      assert e in FrequencyList(text) <==> e in multiset(FrequencyList(text));
    }
  }

  /** The list has the two entries the tree needs exactly when the text is not empty. */
  lemma FrequencyListSize(text: seq<Symbol>)
    ensures |FrequencyList(text)| >= 2 <==> |text| > 0
  {
    ObservedSingle(text);
    var w := WithPartner(Observed(text, 128));
    assert |multiset(FrequencyList(text))| == |multiset(w)|;
  }

  /** With one symbol `c` the list is its weight-0 partner followed by `c`. */
  lemma FrequencyListSingle(text: seq<Symbol>)
    requires Uniform(text)
    ensures FrequencyList(text) == [CharFreq(Partner(text[0]), 0), CharFreq(text[0], |text|)]
  {
    ObservedSingle(text);
    var a, b := CharFreq(text[0], |text|), CharFreq(Partner(text[0]), 0);
    assert WithPartner(Observed(text, 128)) == [a, b];
    assert [a, b][1..] == [b] && [b][1..] == [];
    assert SortByCount([b]) == InsertByCount(b, []) == [b];
    assert InsertByCount(a, [b]) == [b] + InsertByCount(a, []) == [b, a];
  }
}
