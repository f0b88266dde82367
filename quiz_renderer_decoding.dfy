/**
 * The client's decoding: unwrapping the quiz blob from the API response and
 * the backslash repair applied to every text before it is typeset.
 */
module QuizRendererDecoding {
  import opened Optional
  import opened JsonValue
  import Js = JsSemantics

  /**
   * parseQuizData on the client: `decode` stands for DOMParser entity decoding
   * followed by `JSON.parse` (an exception is DecodeFailed). A `null` first
   * item makes the property access throw; the catch returns `null`, the same
   * as a missing field.
   */
  function ParseQuizData(apiData: Json, decode: Json -> Decoded): Option<seq<Json>> {
    if !apiData.Arr? || |apiData.elems| == 0 then None
    else
      var field := Js.Get(apiData.elems[0], "field_quiz_data");
      if !Js.Truthy(field) then None
      else
        match decode(field.value)
        case DecodeFailed => None
        case Decoded(v) => if v.Arr? then Some(v.elems) else None
  }

  /** The client returns the decoded array itself, unfiltered, exactly when every envelope check passes. */
  lemma ClientParseExactly(apiData: Json, decode: Json -> Decoded, records: seq<Json>)
    ensures ParseQuizData(apiData, decode) == Some(records) <==>
              && apiData.Arr? && |apiData.elems| > 0
              && Js.Truthy(Js.Get(apiData.elems[0], "field_quiz_data"))
              && decode(Js.Get(apiData.elems[0], "field_quiz_data").value) == Decoded(Arr(records))
  {
  }

  /** The client returns null for a non-array or empty response, an unset or falsy field, a decode error or a non-array payload. */
  lemma ClientParseNullCases(apiData: Json, decode: Json -> Decoded)
    ensures !apiData.Arr? || |apiData.elems| == 0 ==> ParseQuizData(apiData, decode) == None
    ensures apiData.Arr? && |apiData.elems| > 0 && !Js.Truthy(Js.Get(apiData.elems[0], "field_quiz_data")) ==>
              ParseQuizData(apiData, decode) == None
    ensures apiData.Arr? && |apiData.elems| > 0 && Js.Truthy(Js.Get(apiData.elems[0], "field_quiz_data")) ==>
              var d := decode(Js.Get(apiData.elems[0], "field_quiz_data").value);
              (d.DecodeFailed? || !d.value.Arr?) ==> ParseQuizData(apiData, decode) == None
  {
  }

  // ---------------------------------------------------------------------
  // decodeAndFixMath
  // ---------------------------------------------------------------------

  const Backslash: char := '\\'

  /**
   * `s.replace(/\\\\/g, '\\')`: every pair of backslashes, matched left to
   * right without overlap, becomes one backslash, in a single pass.
   */
  function CollapseBackslashes(s: string): (r: string)
    ensures |r| <= |s|
  {
    if |s| < 2 then s
    else if s[0] == Backslash && s[1] == Backslash then [Backslash] + CollapseBackslashes(s[2..])
    else [s[0]] + CollapseBackslashes(s[1..])
  }

  /**
   * decodeAndFixMath: a falsy value (`undefined` is None) is returned as it
   * is; anything else is entity-decoded by `entityDecode` (DOMParser's text
   * content, abstract here) and its doubled backslashes are collapsed.
   */
  function DecodeAndFixMath(text: Option<Json>, entityDecode: Json -> string): (r: Option<Json>)
    ensures !Js.Truthy(text) ==> r == text
    ensures Js.Truthy(text) ==> r.Some? && r.value.Str? && |r.value.s| <= |entityDecode(text.value)|
  {
    if !Js.Truthy(text) then text
    else Some(Str(CollapseBackslashes(entityDecode(text.value))))
  }

  /** The storage defect the collapse repairs: every backslash written twice. */
  function DoubleBackslashes(t: string): (r: string)
    ensures |r| >= |t|
  {
    if |t| == 0 then []
    else (if t[0] == Backslash then [Backslash, Backslash] else [t[0]]) + DoubleBackslashes(t[1..])
  }

  /** The collapse undoes the doubling exactly. */
  lemma {:induction false} CollapseUndoesDoubling(t: string)
    ensures CollapseBackslashes(DoubleBackslashes(t)) == t
  {
    if |t| > 0 {
      var rest := DoubleBackslashes(t[1..]);
      CollapseUndoesDoubling(t[1..]);
      if t[0] == Backslash {
        var s := [Backslash, Backslash] + rest;
        assert DoubleBackslashes(t) == s;
        assert s[2..] == rest;
        assert t == [Backslash] + t[1..];
      } else {
        var s := [t[0]] + rest;
        assert DoubleBackslashes(t) == s;
        if |s| >= 2 {
          assert s[1..] == rest;
        } else {
          assert rest == [] && t[1..] == [];
        }
        assert t == [t[0]] + t[1..];
      }
    }
  }

  /** A text stored doubled comes back from decodeAndFixMath as it was meant. */
  lemma DecodeRepairsDoubledText(v: Json, entityDecode: Json -> string, t: string)
    requires Js.Truthy(Some(v)) && entityDecode(v) == DoubleBackslashes(t)
    ensures DecodeAndFixMath(Some(v), entityDecode) == Some(Str(t))
  {
    CollapseUndoesDoubling(t);
  }

  /** The collapse is applied once: a text doubled twice loses only one doubling. */
  lemma CollapseOnlyOnce(t: string)
    ensures CollapseBackslashes(DoubleBackslashes(DoubleBackslashes(t))) == DoubleBackslashes(t)
  {
    CollapseUndoesDoubling(DoubleBackslashes(t));
  }

  /** `k` backslashes in a row. */
  function Run(k: nat): (r: string)
    ensures |r| == k
  {
    if k == 0 then [] else [Backslash] + Run(k - 1)
  }

  /** The text does not continue a run of backslashes. */
  predicate BreaksRun(tail: string) {
    |tail| == 0 || tail[0] != Backslash
  }

  /**
   * A run of `k` backslashes, ended by the end of the text or by another
   * character, becomes a run of `(k + 1) / 2`, and what follows is collapsed
   * on its own.
   */
  lemma {:induction false} CollapseRunBefore(k: nat, tail: string)
    requires BreaksRun(tail)
    ensures CollapseBackslashes(Run(k) + tail) == Run((k + 1) / 2) + CollapseBackslashes(tail)
    decreases k
  {
    if k == 0 {
      assert Run(0) + tail == tail;
    } else if k == 1 {
      assert Run(1) == [Backslash];
      CollapseLoneBackslash(tail);
    } else {
      CollapseRunBefore(k - 2, tail);
      CollapseRunStep(k, tail);
    }
  }

  /** Two more backslashes in front of a run add one to its collapse. */
  lemma CollapseRunStep(k: nat, tail: string)
    requires k >= 2
    requires CollapseBackslashes(Run(k - 2) + tail) == Run((k - 1) / 2) + CollapseBackslashes(tail)
    ensures CollapseBackslashes(Run(k) + tail) == Run((k + 1) / 2) + CollapseBackslashes(tail)
  {
    CollapseRunPrefix(k, tail);
    ConcatAssoc([Backslash], Run((k - 1) / 2), CollapseBackslashes(tail));
    RunHalfCons(k);
  }

  /** A run of `k` backslashes becomes a run of `(k + 1) / 2`: four become two, not one. */
  lemma CollapseRun(k: nat)
    ensures CollapseBackslashes(Run(k)) == Run((k + 1) / 2)
  {
    CollapseRunBefore(k, []);
    assert Run(k) + [] == Run(k);
    assert Run((k + 1) / 2) + [] == Run((k + 1) / 2);
  }

  /** A run ends at the first other character, and what follows is collapsed on its own. */
  lemma CollapseRunThen(k: nat, c: char, rest: string)
    requires c != Backslash
    ensures CollapseBackslashes(Run(k) + [c] + rest) == Run((k + 1) / 2) + [c] + CollapseBackslashes(rest)
  {
    CollapseRunBefore(k, [c] + rest);
    ConcatAssoc(Run(k), [c], rest);
    CollapseOther(c, rest);
    ConcatAssoc(Run((k + 1) / 2), [c], CollapseBackslashes(rest));
  }

  lemma ConcatAssoc<T>(a: seq<T>, b: seq<T>, c: seq<T>)
    ensures a + (b + c) == a + b + c
  {
  }

  /** The leading pair of a run of `k >= 2` becomes one backslash, before whatever follows. */
  lemma CollapseRunPrefix(k: nat, tail: string)
    requires k >= 2
    ensures CollapseBackslashes(Run(k) + tail) == [Backslash] + CollapseBackslashes(Run(k - 2) + tail)
  {
    RunSplit(k);
    ConcatAssoc([Backslash, Backslash], Run(k - 2), tail);
    CollapsePair(Run(k - 2) + tail);
  }

  /** Halving, rounded up, gains one for every two more backslashes. */
  lemma RunHalfCons(k: nat)
    requires k >= 2
    ensures [Backslash] + Run((k - 1) / 2) == Run((k + 1) / 2)
  {
    assert (k - 1) / 2 + 1 == (k + 1) / 2;
  }

  /** A leading pair becomes one backslash, and the scan resumes after it. */
  lemma CollapsePair(rest: string)
    ensures CollapseBackslashes([Backslash, Backslash] + rest) == [Backslash] + CollapseBackslashes(rest)
  {
    assert ([Backslash, Backslash] + rest)[2..] == rest;
  }

  /** A lone backslash that does not start a pair is kept. */
  lemma CollapseLoneBackslash(tail: string)
    requires BreaksRun(tail)
    ensures CollapseBackslashes([Backslash] + tail) == [Backslash] + CollapseBackslashes(tail)
  {
    var s := [Backslash] + tail;
    if |tail| > 0 {
      assert s[1] == tail[0] && s[1..] == tail;
    }
  }

  /** A run of at least two starts with a pair. */
  lemma RunSplit(k: nat)
    requires k >= 2
    ensures Run(k) == [Backslash, Backslash] + Run(k - 2)
  {
    assert Run(k) == [Backslash] + ([Backslash] + Run(k - 2));
  }

  /** Every character of a run is a backslash. */
  lemma {:induction false} RunIsBackslashes(k: nat)
    ensures forall i :: 0 <= i < k ==> Run(k)[i] == Backslash
  {
    if k > 0 {
      RunIsBackslashes(k - 1);
      assert forall i :: 1 <= i < k ==> Run(k)[i] == Run(k - 1)[i - 1];
    }
  }

  /** A character other than a backslash passes through the scan untouched. */
  lemma CollapseOther(c: char, rest: string)
    requires c != Backslash
    ensures CollapseBackslashes([c] + rest) == [c] + CollapseBackslashes(rest)
  {
    var s := [c] + rest;
    if |s| >= 2 {
      assert s[1..] == rest;
    } else {
      assert rest == [];
    }
  }

  /** Four backslashes decode to two. */
  lemma FourBackslashesBecomeTwo()
    ensures CollapseBackslashes("\\\\\\\\") == "\\\\"
  {
    CollapseRun(4);
    assert Run(4) == "\\\\\\\\";
    assert Run(2) == "\\\\";
  }

  /** The text has two adjacent backslashes somewhere. */
  predicate HasPair(s: string) {
    exists i :: 0 <= i < |s| - 1 && s[i] == Backslash && s[i + 1] == Backslash
  }

  /** A text without a backslash pair is unchanged, and one with a pair gets shorter. */
  lemma {:induction false} CollapseChangesExactlyPairs(s: string)
    ensures CollapseBackslashes(s) == s <==> !HasPair(s)
    ensures HasPair(s) ==> |CollapseBackslashes(s)| < |s|
  {
    if |s| >= 2 {
      if s[0] == Backslash && s[1] == Backslash {
        assert HasPair(s);
      } else {
        CollapseChangesExactlyPairs(s[1..]);
        assert HasPair(s) <==> HasPair(s[1..]) by {
          if HasPair(s) {
            var i :| 0 <= i < |s| - 1 && s[i] == Backslash && s[i + 1] == Backslash;
            assert i >= 1;
            assert s[1..][i - 1] == s[i] && s[1..][i] == s[i + 1];
          }
          if HasPair(s[1..]) {
            var i :| 0 <= i < |s[1..]| - 1 && s[1..][i] == Backslash && s[1..][i + 1] == Backslash;
            assert s[i + 1] == Backslash && s[i + 2] == Backslash;
          }
        }
        assert s == [s[0]] + s[1..];
      }
    } else {
      assert !HasPair(s);
    }
  }

  /** The characters of a text other than backslashes, in order. */
  function NonBackslashes(s: string): string {
    if |s| == 0 then []
    else (if s[0] == Backslash then [] else [s[0]]) + NonBackslashes(s[1..])
  }

  lemma {:induction false} NonBackslashesAppend(a: string, b: string)
    ensures NonBackslashes(a + b) == NonBackslashes(a) + NonBackslashes(b)
    decreases |a|
  {
    if |a| > 0 {
      assert (a + b)[1..] == a[1..] + b;
      NonBackslashesAppend(a[1..], b);
    } else {
      assert a + b == b;
    }
  }

  /**
   * Only backslashes are removed, one per replaced pair: every other
   * character is kept, in order, and the length drops by the number of pairs.
   */
  lemma {:induction false} CollapseKeepsOtherCharacters(s: string)
    ensures NonBackslashes(CollapseBackslashes(s)) == NonBackslashes(s)
    ensures |CollapseBackslashes(s)| == |s| - Replacements(s)
  {
    if |s| >= 2 {
      if s[0] == Backslash && s[1] == Backslash {
        CollapseKeepsOtherCharacters(s[2..]);
        NonBackslashesAppend([Backslash], CollapseBackslashes(s[2..]));
        assert s == [Backslash, Backslash] + s[2..];
        NonBackslashesAppend([Backslash, Backslash], s[2..]);
        assert NonBackslashes([Backslash]) == [] by {
          assert [Backslash][1..] == [];
        }
        assert NonBackslashes([Backslash, Backslash]) == [] by {
          assert [Backslash, Backslash][1..] == [Backslash];
          assert [Backslash][1..] == [];
        }
      } else {
        CollapseKeepsOtherCharacters(s[1..]);
        NonBackslashesAppend([s[0]], CollapseBackslashes(s[1..]));
        assert ([s[0]] + CollapseBackslashes(s[1..]))[1..] == CollapseBackslashes(s[1..]);
      }
    }
  }

  /** How many pairs the left-to-right scan replaces. */
  function Replacements(s: string): (n: nat)
    ensures 2 * n <= |s|
  {
    if |s| < 2 then 0
    else if s[0] == Backslash && s[1] == Backslash then 1 + Replacements(s[2..])
    else Replacements(s[1..])
  }
}
