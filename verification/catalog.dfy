/**
 The voice catalog and its query by language prefix and gender
 (`get_available_voices`). The catalog the speech service lists is an input
 sequence here; the name list is built by a nested loop, as
 `get_available_voices` does, appending a voice's name once per language
 code that matches.
 */
module Catalog {
  import opened Text
  import opened Voices
  import Outcomes

  /** A voice the query keeps: its gender is the requested one and at least
      one of its language codes starts with the prefix. */
  ghost predicate Eligible(v: Voice, prefix: string, g: Gender) {
    v.gender == ToSsml(g) && exists k :: 0 <= k < |v.languageCodes| && StartsWith(v.languageCodes[k], prefix)
  }

  /** The names the inner loop appends for the codes `codes` of voice `v`. */
  function CodeHits(v: Voice, codes: seq<string>, prefix: string, g: Gender): seq<string>
  {
    if |codes| == 0 then []
    else
      var last := codes[|codes| - 1];
      CodeHits(v, codes[..|codes| - 1], prefix, g)
      + (if StartsWith(last, prefix) && v.gender == ToSsml(g) then [v.name] else [])
  }

  /** The names the outer loop has collected after visiting `voices`. */
  function Hits(voices: seq<Voice>, prefix: string, g: Gender): seq<string>
  {
    if |voices| == 0 then []
    else
      var last := voices[|voices| - 1];
      Hits(voices[..|voices| - 1], prefix, g) + CodeHits(last, last.languageCodes, prefix, g)
  }

  /** How many of `codes` start with `prefix`. */
  function CountPrefixed(codes: seq<string>, prefix: string): nat
  {
    if |codes| == 0 then 0
    else (if StartsWith(codes[0], prefix) then 1 else 0) + CountPrefixed(codes[1..], prefix)
  }

  function Repeat(x: string, n: nat): (r: seq<string>)
    ensures |r| == n && forall k :: 0 <= k < n ==> r[k] == x
  {
    seq(n, _ => x)
  }

  /** The query, or the usage error when nothing matches. */
  function AvailableVoices(catalog: seq<Voice>, prefix: string, g: Gender): (r: Outcomes.Result<seq<string>>)
    ensures r.Ok? ==> |r.value| > 0
    ensures r.Err? <==> forall i :: 0 <= i < |catalog| ==> !Eligible(catalog[i], prefix, g)
    ensures r.Err? ==> r.failure == Outcomes.NoVoicesFound(prefix, g)
    ensures r.Ok? ==> forall n :: n in r.value <==>
                        exists i :: 0 <= i < |catalog| && catalog[i].name == n && Eligible(catalog[i], prefix, g)
  {
    var h := Hits(catalog, prefix, g);
    HitsMembership(catalog, prefix, g);
    if |h| == 0 then
      assert forall i :: 0 <= i < |catalog| ==> !Eligible(catalog[i], prefix, g) by {
        forall i | 0 <= i < |catalog|
          ensures !Eligible(catalog[i], prefix, g)
        {
          assert catalog[i].name !in h;
        }
      }
      Outcomes.Err(Outcomes.NoVoicesFound(prefix, g))
    else
      assert h[0] in h;
      Outcomes.Ok(h)
  }

  /** `get_available_voices`: the nested loop over voices and their language codes. */
  method GetAvailableVoices(catalog: seq<Voice>, prefix: string, g: Gender)
    returns (r: Outcomes.Result<seq<string>>)
    ensures r == AvailableVoices(catalog, prefix, g)
    ensures r.Ok? ==> r.value == Hits(catalog, prefix, g)
  {
    var matched: seq<string> := [];
    var i := 0;
    while i < |catalog|
      invariant 0 <= i <= |catalog|
      invariant matched == Hits(catalog[..i], prefix, g)
    {
      var voice := catalog[i];
      var j := 0;
      while j < |voice.languageCodes|
        invariant 0 <= j <= |voice.languageCodes|
        invariant matched == Hits(catalog[..i], prefix, g) + CodeHits(voice, voice.languageCodes[..j], prefix, g)
      {
        var code := voice.languageCodes[j];
        if StartsWith(code, prefix) && voice.gender == ToSsml(g) {
          matched := matched + [voice.name];
        }
        assert voice.languageCodes[..j + 1][..j] == voice.languageCodes[..j];
        j := j + 1;
      }
      assert voice.languageCodes[..j] == voice.languageCodes;
      assert catalog[..i + 1][..i] == catalog[..i];
      i := i + 1;
    }
    assert catalog[..i] == catalog;
    if |matched| == 0 {
      r := Outcomes.Err(Outcomes.NoVoicesFound(prefix, g));
    } else {
      r := Outcomes.Ok(matched);
    }
  }

  // ---------------------------------------------------------------------------
  // Properties of the collected name list
  // ---------------------------------------------------------------------------

  /** A name is appended for a code list exactly when the voice has the
      requested gender and one of those codes starts with the prefix. */
  lemma {:induction false} CodeHitsMembership(v: Voice, codes: seq<string>, prefix: string, g: Gender)
    ensures forall n :: n in CodeHits(v, codes, prefix, g) ==> n == v.name
    ensures |CodeHits(v, codes, prefix, g)| > 0 <==>
              v.gender == ToSsml(g) && exists k :: 0 <= k < |codes| && StartsWith(codes[k], prefix)
  {
    if |codes| > 0 {
      var init := codes[..|codes| - 1];
      CodeHitsMembership(v, init, prefix, g);
      if v.gender == ToSsml(g) && (exists k :: 0 <= k < |init| && StartsWith(init[k], prefix)) {
        var k :| 0 <= k < |init| && StartsWith(init[k], prefix);
        assert StartsWith(codes[k], prefix);
      }
      if exists k :: 0 <= k < |codes| && StartsWith(codes[k], prefix) {
        var k :| 0 <= k < |codes| && StartsWith(codes[k], prefix);
        if k < |init| {
          assert StartsWith(init[k], prefix);
        }
      }
    }
  }

  /** The collected names are exactly the names of the eligible voices. */
  lemma {:induction false} HitsMembership(voices: seq<Voice>, prefix: string, g: Gender)
    ensures forall n :: n in Hits(voices, prefix, g) <==>
              exists i :: 0 <= i < |voices| && voices[i].name == n && Eligible(voices[i], prefix, g)
  {
    if |voices| > 0 {
      var init := voices[..|voices| - 1];
      var last := voices[|voices| - 1];
      HitsMembership(init, prefix, g);
      CodeHitsMembership(last, last.languageCodes, prefix, g);
      var tail := CodeHits(last, last.languageCodes, prefix, g);
      forall n
        ensures n in Hits(voices, prefix, g) <==>
                exists i :: 0 <= i < |voices| && voices[i].name == n && Eligible(voices[i], prefix, g)
      {
        if n in Hits(init, prefix, g) {
          var i :| 0 <= i < |init| && init[i].name == n && Eligible(init[i], prefix, g);
          assert voices[i] == init[i];
        } else if n in tail {
          assert last.name == n;
        }
        if exists i :: 0 <= i < |voices| && voices[i].name == n && Eligible(voices[i], prefix, g) {
          var i :| 0 <= i < |voices| && voices[i].name == n && Eligible(voices[i], prefix, g);
          if i < |init| {
            assert init[i] == voices[i];
          } else {
            assert tail[0] in tail;
          }
        }
      }
    }
  }

  /** Catalog order is kept: the names for a concatenated catalog are the
      names for its first part followed by the names for its second part. */
  lemma {:induction false} HitsAppend(a: seq<Voice>, b: seq<Voice>, prefix: string, g: Gender)
    ensures Hits(a + b, prefix, g) == Hits(a, prefix, g) + Hits(b, prefix, g)
    decreases |b|
  {
    if |b| > 0 {
      var last := b[|b| - 1];
      assert (a + b)[..|a + b| - 1] == a + b[..|b| - 1];
      HitsAppend(a, b[..|b| - 1], prefix, g);
    } else {
      assert a + b == a;
    }
  }

  /** One voice contributes its name once per matching language code, and
      nothing when its gender differs. */
  lemma {:induction false} VoiceContribution(v: Voice, codes: seq<string>, prefix: string, g: Gender)
    ensures CodeHits(v, codes, prefix, g) ==
              (if v.gender == ToSsml(g) then Repeat(v.name, CountPrefixed(codes, prefix)) else [])
  {
    if |codes| > 0 {
      var init := codes[..|codes| - 1];
      VoiceContribution(v, init, prefix, g);
      CountPrefixedSnoc(init, codes[|codes| - 1], prefix);
      assert init + [codes[|codes| - 1]] == codes;
    }
  }

  lemma {:induction false} CountPrefixedSnoc(codes: seq<string>, c: string, prefix: string)
    ensures CountPrefixed(codes + [c], prefix) == CountPrefixed(codes, prefix) + (if StartsWith(c, prefix) then 1 else 0)
  {
    if |codes| > 0 {
      CountPrefixedSnoc(codes[1..], c, prefix);
      assert (codes + [c])[1..] == codes[1..] + [c];
    }
  }

  /** The whole name list, voice by voice. */
  lemma SingleVoiceHits(v: Voice, prefix: string, g: Gender)
    ensures Hits([v], prefix, g) ==
              (if v.gender == ToSsml(g) then Repeat(v.name, CountPrefixed(v.languageCodes, prefix)) else [])
  {
    VoiceContribution(v, v.languageCodes, prefix, g);
    assert [v][..0] == [];
  }
}
