/**
 Voice disambiguation (`select_voice`). The interactive menu prompt is the
 integer parameter `choice`; it is only consulted when more than one
 candidate matches the voice type.
 */
module Selection {
  import opened Text
  import opened Outcomes

  /** A candidate matches when the voice type occurs in its lowercased name;
      the voice type itself is not lowercased. */
  predicate Matches(voiceType: string, name: string) {
    Contains(voiceType, Lower(name))
  }

  /** The menu: the matching candidates, in candidate order, duplicates kept. */
  function Matched(candidates: seq<string>, voiceType: string): (m: seq<string>)
    ensures |m| <= |candidates|
    ensures forall k :: 0 <= k < |m| ==> m[k] in candidates && IsSubstring(voiceType, Lower(m[k]))
  {
    if |candidates| == 0 then []
    else
      ContainsIsSubstring(voiceType, Lower(candidates[0]));
      (if Matches(voiceType, candidates[0]) then [candidates[0]] else []) + Matched(candidates[1..], voiceType)
  }

  /** `select_voice`, with the user's answer to the menu prompt as `choice`. */
  function SelectVoice(candidates: seq<string>, voiceType: string, choice: int): (r: Result<string>)
    ensures r.Ok? ==> r.value in candidates
    ensures r.Err? ==> r.failure == InvalidChoice || (r.failure == IndexError && |candidates| == 0)
  {
    var m := Matched(candidates, voiceType);
    if |m| == 1 then Ok(m[0])
    else if |m| > 1 then
      if 1 <= choice <= |m| then Ok(m[choice - 1]) else Err(InvalidChoice)
    else if |candidates| == 0 then Err(IndexError)
    else Ok(candidates[0])
  }

  // ---------------------------------------------------------------------------
  // The three cases, stated through where the voice type occurs
  // ---------------------------------------------------------------------------

  /** Indices of the candidates whose lowercased name holds the voice type. */
  ghost predicate HitAt(candidates: seq<string>, voiceType: string, i: int) {
    0 <= i < |candidates| && IsSubstring(voiceType, Lower(candidates[i]))
  }

  /** The menu holds exactly the matching candidates, and is empty exactly
      when no candidate matches. */
  lemma {:induction false} MatchedCharacterised(candidates: seq<string>, voiceType: string)
    ensures forall v :: v in Matched(candidates, voiceType) <==> v in candidates && IsSubstring(voiceType, Lower(v))
    ensures (forall i :: !HitAt(candidates, voiceType, i)) <==> |Matched(candidates, voiceType)| == 0
  {
    if |candidates| > 0 {
      var rest := candidates[1..];
      MatchedCharacterised(rest, voiceType);
      ContainsIsSubstring(voiceType, Lower(candidates[0]));
      assert candidates == [candidates[0]] + rest;
      if forall i :: !HitAt(candidates, voiceType, i) {
        assert !HitAt(candidates, voiceType, 0);
        forall i | true ensures !HitAt(rest, voiceType, i) {
          assert !HitAt(candidates, voiceType, i + 1);
        }
      }
      if exists i :: HitAt(candidates, voiceType, i) {
        var i :| HitAt(candidates, voiceType, i);
        if i > 0 {
          assert HitAt(rest, voiceType, i - 1);
        }
      }
    }
  }

  /** The menu lists matching candidates in candidate order: the menu of a
      concatenation is the concatenation of the menus. */
  lemma {:induction false} MatchedAppend(a: seq<string>, b: seq<string>, voiceType: string)
    ensures Matched(a + b, voiceType) == Matched(a, voiceType) + Matched(b, voiceType)
  {
    if |a| > 0 {
      MatchedAppend(a[1..], b, voiceType);
      assert (a + b)[1..] == a[1..] + b;
    } else {
      assert a + b == b;
    }
  }

  /** With exactly one hit, that candidate is returned whatever the prompt
      would have answered. */
  lemma {:induction false} SelectSingle(candidates: seq<string>, voiceType: string, choice: int, i: nat)
    requires HitAt(candidates, voiceType, i)
    requires forall j :: j != i ==> !HitAt(candidates, voiceType, j)
    ensures SelectVoice(candidates, voiceType, choice) == Ok(candidates[i])
  {
    MatchedSingle(candidates, voiceType, i);
  }

  lemma {:induction false} MatchedSingle(candidates: seq<string>, voiceType: string, i: nat)
    requires HitAt(candidates, voiceType, i)
    requires forall j :: j != i ==> !HitAt(candidates, voiceType, j)
    ensures Matched(candidates, voiceType) == [candidates[i]]
  {
    var rest := candidates[1..];
    ContainsIsSubstring(voiceType, Lower(candidates[0]));
    if i == 0 {
      forall j | 0 <= j ensures !HitAt(rest, voiceType, j) {
        assert !HitAt(candidates, voiceType, j + 1);
      }
      MatchedCharacterised(rest, voiceType);
    } else {
      assert !HitAt(candidates, voiceType, 0);
      assert HitAt(rest, voiceType, i - 1);
      forall j | j != i - 1 ensures !HitAt(rest, voiceType, j) {
        assert !HitAt(candidates, voiceType, j + 1);
      }
      MatchedSingle(rest, voiceType, i - 1);
    }
  }

  /** With no hit, the first candidate is the fallback. */
  lemma SelectNone(candidates: seq<string>, voiceType: string, choice: int)
    requires |candidates| > 0
    requires forall j :: !HitAt(candidates, voiceType, j)
    ensures SelectVoice(candidates, voiceType, choice) == Ok(candidates[0])
  {
    MatchedCharacterised(candidates, voiceType);
  }

  /** With two or more hits, an in-range choice picks that menu entry and any
      other choice is a usage error. */
  lemma SelectMany(candidates: seq<string>, voiceType: string, choice: int, i: nat, j: nat)
    requires i < j
    requires HitAt(candidates, voiceType, i) && HitAt(candidates, voiceType, j)
    ensures var m := Matched(candidates, voiceType);
            |m| >= 2
            && (1 <= choice <= |m| ==> SelectVoice(candidates, voiceType, choice) == Ok(m[choice - 1]))
            && (!(1 <= choice <= |m|) ==> SelectVoice(candidates, voiceType, choice) == Err(InvalidChoice))
  {
    MatchedTwoHits(candidates, voiceType, i, j);
  }

  lemma {:induction false} MatchedTwoHits(candidates: seq<string>, voiceType: string, i: nat, j: nat)
    requires i < j
    requires HitAt(candidates, voiceType, i) && HitAt(candidates, voiceType, j)
    ensures |Matched(candidates, voiceType)| >= 2
  {
    var rest := candidates[1..];
    ContainsIsSubstring(voiceType, Lower(candidates[0]));
    if i == 0 {
      assert HitAt(rest, voiceType, j - 1);
      MatchedCharacterised(rest, voiceType);
    } else {
      assert HitAt(rest, voiceType, i - 1) && HitAt(rest, voiceType, j - 1);
      MatchedTwoHits(rest, voiceType, i - 1, j - 1);
    }
  }

  /** Whenever some candidate matches, the selected voice matches too. */
  lemma SelectedMatches(candidates: seq<string>, voiceType: string, choice: int, i: nat)
    requires HitAt(candidates, voiceType, i)
    requires SelectVoice(candidates, voiceType, choice).Ok?
    ensures IsSubstring(voiceType, Lower(SelectVoice(candidates, voiceType, choice).value))
  {
    MatchedCharacterised(candidates, voiceType);
  }

  /** Every menu entry can be reached by some answer to the prompt. */
  lemma EveryEntryReachable(candidates: seq<string>, voiceType: string, k: nat)
    requires k < |Matched(candidates, voiceType)|
    ensures SelectVoice(candidates, voiceType, k + 1) == Ok(Matched(candidates, voiceType)[k])
  {
  }
}
