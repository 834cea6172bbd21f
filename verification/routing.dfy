/**
 * The routing function of the four-store setup the repository's test suite
 * runs against (src/index.test.ts:28-41): stores "0" to "3", and a value goes
 * to the store of every digit '1', '2' or '3' it contains, in order and with
 * repeats, or to store "0" when it has none.
 */
module Routing {
  import opened Multiplexer

  /** The labels of the four configured stores. */
  const Labels: set<string> := {"0", "1", "2", "3"}

  /** The characters that name a store of their own. */
  predicate RoutingChar(c: char)
  {
    c == '1' || c == '2' || c == '3'
  }

  /** A one-character label of a routing character is a store label other
      than "0". */
  lemma DigitLabel(x: string)
    requires |x| == 1 && RoutingChar(x[0])
    ensures x in Labels && x != "0"
  {
    if x[0] == '1' {
      assert x == "1";
    } else if x[0] == '2' {
      assert x == "2";
    } else {
      assert x == "3";
    }
  }

  /** The characters of `s` that name a store, each as a one-character label,
      in the order they occur (src/index.test.ts:37). */
  function Digits(s: string): (r: seq<string>)
    ensures |r| <= |s|
    ensures forall i :: 0 <= i < |r| ==> |r[i]| == 1 && RoutingChar(r[i][0]) && r[i][0] in s
    ensures forall i :: 0 <= i < |s| && RoutingChar(s[i]) ==> [s[i]] in r
    ensures r == [] <==> forall i :: 0 <= i < |s| ==> !RoutingChar(s[i])
  {
    if s == [] then []
    else
      var rest := Digits(s[1..]);
      assert forall i :: 1 <= i < |s| ==> s[i] == s[1..][i - 1];
      if RoutingChar(s[0]) then [[s[0]]] + rest else rest
  }

  /** The labels of a single character. */
  lemma DigitsOfChar(c: char)
    ensures Digits([c]) == if RoutingChar(c) then [[c]] else []
  {
    assert [c][1..] == [];
  }

  /** Filtering distributes over concatenation: the labels of a value keep the
      order and the multiplicity of its digits. */
  lemma {:induction false} DigitsAppend(a: string, b: string)
    ensures Digits(a + b) == Digits(a) + Digits(b)
  {
    if a == [] {
      assert a + b == b;
    } else {
      assert (a + b)[1..] == a[1..] + b;
      DigitsAppend(a[1..], b);
    }
  }

  /** The test suite's routing function (src/index.test.ts:35-41). */
  function Mapper(val: string): (r: seq<string>)
    ensures r != []
    ensures forall i :: 0 <= i < |r| ==> r[i] in Labels
    ensures r == ["0"] <==> forall i :: 0 <= i < |val| ==> !RoutingChar(val[i])
    ensures r != ["0"] ==> r == Digits(val)
  {
    var ret := Digits(val);
    if |ret| == 0 then ["0"]
    else
      assert forall i :: 0 <= i < |ret| ==> ret[i] in Labels && ret[i] != "0" by {
        forall i | 0 <= i < |ret| ensures ret[i] in Labels && ret[i] != "0" {
          DigitLabel(ret[i]);
        }
      }
      ret
  }

  /** Every label the routing function produces is one of the four stores. */
  lemma MapperRoutable()
    ensures Routable(Mapper, Labels)
  {
  }

  /** A word of letters only yields no labels. */
  lemma HelloHasNoDigits(w: string)
    requires w == "hello"
    ensures Digits(w) == []
  {
    assert !RoutingChar(w[0]) && !RoutingChar(w[1]) && !RoutingChar(w[2]) && !RoutingChar(w[3]) && !RoutingChar(w[4]);
  }

  /** Each of "1", "2", "3" labels its own store, in order. */
  lemma DigitsOf123(d: string)
    requires d == "123"
    ensures Digits(d) == ["1", "2", "3"]
  {
    assert d == [d[0]] + ([d[1]] + [d[2]]);
    DigitsAppend([d[0]], [d[1]] + [d[2]]);
    DigitsAppend([d[1]], [d[2]]);
    DigitsOfChar(d[0]);
    DigitsOfChar(d[1]);
    DigitsOfChar(d[2]);
  }

  /** "hello123" goes to stores 1, 2 and 3 (src/index.test.ts:32). */
  lemma RoutesHello123(s: string)
    requires s == "hello123"
    ensures Mapper(s) == ["1", "2", "3"]
  {
    var word, digits := s[..5], s[5..];
    assert s == word + digits;
    assert word == "hello" && digits == "123";
    DigitsAppend(word, digits);
    HelloHasNoDigits(word);
    DigitsOf123(digits);
  }

  /** "hi" goes to store 0 (src/index.test.ts:33). */
  lemma RoutesHi(s: string)
    requires s == "hi"
    ensures Mapper(s) == ["0"]
  {
    assert !RoutingChar(s[0]) && !RoutingChar(s[1]);
  }

  /** "hi2" goes to store 2 (src/index.test.ts:34). */
  lemma RoutesHi2(s: string)
    requires s == "hi2"
    ensures Mapper(s) == ["2"]
  {
    var word := s[..2];
    assert s == word + [s[2]];
    DigitsAppend(word, [s[2]]);
    assert Digits(word) == [] by {
      assert !RoutingChar(word[0]) && !RoutingChar(word[1]);
    }
    DigitsOfChar(s[2]);
  }
}
