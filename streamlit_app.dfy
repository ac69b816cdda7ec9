/**
 * The decision rules of the DetectaOdonto page: the 800-character preview of
 * the extracted article, the keyword claim detector, and the rule that turns
 * a score into one of two verdicts. The article text and the score are inputs.
 */
module StreamlitApp {
  import opened PyStr

  // ---------------------------------------------------------------------------
  // Preview of the extracted text
  // ---------------------------------------------------------------------------

  /** Number of characters of the article shown before the ellipsis. */
  const PreviewLength: nat := 800

  /** Appended to the preview whatever the length of the text. */
  const Ellipsis: string := "..."

  /** `texto[:800] + "..."`. */
  function Preview(texto: string): (r: string)
    ensures |r| == (if |texto| < PreviewLength then |texto| else PreviewLength) + |Ellipsis|
    ensures r[..|r| - |Ellipsis|] <= texto
    ensures r[|r| - |Ellipsis|..] == Ellipsis
  {
    Take(texto, PreviewLength) + Ellipsis
  }

  /** A text of at most 800 characters is shown whole, and still gets the ellipsis. */
  lemma PreviewShortText(texto: string)
    requires |texto| <= PreviewLength
    ensures Preview(texto) == texto + Ellipsis
  {
  }

  /** A longer text is cut to exactly 800 characters: the preview is 803 long
      and only the first 800 characters of the text matter. */
  lemma PreviewLongText(a: string, b: string)
    requires |a| >= PreviewLength && |b| >= PreviewLength
    requires a[..PreviewLength] == b[..PreviewLength]
    ensures |Preview(a)| == PreviewLength + |Ellipsis|
    ensures Preview(a) == Preview(b)
  {
  }

  // ---------------------------------------------------------------------------
  // Claim detection
  // ---------------------------------------------------------------------------

  /** The text is cut into candidate claims at every full stop. */
  const ClaimSeparator: char := '.'

  /** The Portuguese phrases whose presence marks a fragment as a claim. */
  const Triggers: seq<string> := ["cura", "substitui", "elimina", "resolve", "sem dor"]

  /** `any(x in s for x in triggers)`, scanning the list from the front: true
      exactly when some trigger of the list occurs in `s`. */
  predicate AnyIn(triggers: seq<string>, s: string)
    ensures AnyIn(triggers, s) <==> exists k :: 0 <= k < |triggers| && Contains(s, triggers[k])
  {
    assert forall k :: 1 <= k < |triggers| ==> triggers[1..][k - 1] == triggers[k];
    |triggers| > 0 && (Contains(s, triggers[0]) || AnyIn(triggers[1..], s))
  }

  /** The test applied to each fragment: its lower-cased form contains a trigger. */
  predicate IsClaim(frase: string)
    ensures IsClaim(frase) <==> exists k :: 0 <= k < |Triggers| && Contains(Lower(frase), Triggers[k])
  {
    AnyIn(Triggers, Lower(frase))
  }

  /** The claims of an article text: its full-stop fragments that contain a trigger. */
  function DetectClaims(texto: string): (claims: seq<string>)
    ensures forall c :: c in claims ==> IsClaim(c) && ClaimSeparator !in c
  {
    SplitNoSep(texto, ClaimSeparator);
    Filter(IsClaim, Split(texto, ClaimSeparator))
  }

  /** The claims are exactly the full-stop fragments of the text that contain
      a trigger, in the order of the text, each kept with its own case and
      spacing. */
  lemma DetectClaimsExact(texto: string)
    ensures exists idx :: SelectedAt(IsClaim, DetectClaims(texto), Split(texto, ClaimSeparator), idx)
  {
    var idx := FilterSelects(IsClaim, Split(texto, ClaimSeparator));
    assert DetectClaims(texto) == Filter(IsClaim, Split(texto, ClaimSeparator));
    assert SelectedAt(IsClaim, DetectClaims(texto), Split(texto, ClaimSeparator), idx);
  }

  /** Conversely, that description fixes the claims: any ordered selection of
      exactly the triggering fragments is what the detector returns. */
  lemma DetectClaimsUnique(texto: string, claims: seq<string>, idx: seq<int>)
    requires SelectedAt(IsClaim, claims, Split(texto, ClaimSeparator), idx)
    ensures claims == DetectClaims(texto)
  {
    SelectedIsFilter(IsClaim, claims, Split(texto, ClaimSeparator), idx);
  }

  /** Lower-casing extends to a longer text around a fragment, so a fragment
      that contains a trigger makes the whole text contain it. */
  lemma IsClaimExtend(p: string, w: string, q: string)
    requires IsClaim(w)
    ensures IsClaim(p + w + q)
  {
    LowerConcat(p, w);
    LowerConcat(p + w, q);
    var k :| 0 <= k < |Triggers| && Contains(Lower(w), Triggers[k]);
    ContainsExtend(Lower(p), Lower(w), Lower(q), Triggers[k]);
  }

  /** A text with no trigger anywhere yields no claim; in particular so does
      the empty text. */
  lemma NoTriggerNoClaims(texto: string)
    requires !IsClaim(texto)
    ensures DetectClaims(texto) == []
  {
    var frases := Split(texto, ClaimSeparator);
    JoinSplit(texto, ClaimSeparator);
    var claims := DetectClaims(texto);
    if claims != [] {
      assert claims[0] in frases;
      var k :| 0 <= k < |frases| && frases[k] == claims[0];
      JoinFactor(frases, ClaimSeparator, k);
      var p, q :| texto == p + frases[k] + q;
      IsClaimExtend(p, frases[k], q);
    }
  }

  lemma EmptyTextNoClaims()
    ensures DetectClaims("") == []
  {
  }

  /** The test ignores letter case. */
  lemma IsClaimIgnoresCase(a: string, b: string)
    requires Lower(a) == Lower(b)
    ensures IsClaim(a) <==> IsClaim(b)
  {
  }

  /** Lower-casing the whole article gives the same claims, lower-cased: case
      decides nothing about which fragments are kept. */
  lemma DetectClaimsLower(texto: string)
    ensures DetectClaims(Lower(texto)) == LowerAll(DetectClaims(texto))
  {
    SplitLower(texto, ClaimSeparator);
    forall s: string ensures IsClaim(Lower(s)) == IsClaim(s) {
      LowerIdempotent(s);
    }
    FilterLower(IsClaim, Split(texto, ClaimSeparator));
  }

  /** There are never more claims than fragments, that is, full stops plus one. */
  lemma ClaimCountBound(texto: string)
    ensures |DetectClaims(texto)| <= Count(texto, ClaimSeparator) + 1
  {
    SplitCount(texto, ClaimSeparator);
  }

  /** Upper case and words that merely contain a trigger both count. */
  lemma SubstringAndCaseExamples()
    ensures IsClaim("CURA")
    ensures IsClaim("procura")
    ensures !IsClaim("")
  {
    assert Lower("CURA") == "cura";
    assert Contains("cura", "cura");
    assert Contains("cura", "ura") by { assert Contains("ura", "ura"); }
    assert Contains("procura", "cura") by {
      assert "procura"[1..] == "rocura";
      assert "rocura"[1..] == "ocura";
      assert "ocura"[1..] == "cura";
    }
    assert Lower("procura") == "procura";
  }

  /** A fragment with no trigger: each trigger has a character it lacks. */
  lemma NeutralFragment()
    ensures !IsClaim("O esmalte protege")
  {
    var low := Lower("O esmalte protege");
    assert low == "o esmalte protege";
    forall k | 0 <= k < |Triggers| ensures !Contains(low, Triggers[k]) {
      var missing := ['c', 'b', 'i', 'v', 'd'][k];
      assert missing in Triggers[k];
      assert missing !in low;
      if Contains(low, Triggers[k]) {
        ContainsChars(low, Triggers[k]);
      }
    }
  }

  /** How the worked article below splits at its full stops. */
  lemma ExampleFragments()
    ensures Split("O esmalte protege. Esta pasta CURA a carie.", ClaimSeparator)
         == ["O esmalte protege", " Esta pasta CURA a carie", ""]
  {
    var frases := ["O esmalte protege", " Esta pasta CURA a carie", ""];
    assert Join(frases, ClaimSeparator) == "O esmalte protege" + "." + Join(frases[1..], ClaimSeparator);
    assert frases[1..][1..] == [""];
    assert Join(frases[1..], ClaimSeparator) == " Esta pasta CURA a carie" + "." + "";
    SplitUnique("O esmalte protege. Esta pasta CURA a carie.", frases, ClaimSeparator);
  }

  /** The second fragment of the worked article carries a trigger in capitals. */
  lemma ExampleClaimFragment()
    ensures IsClaim(" Esta pasta CURA a carie")
  {
    SubstringAndCaseExamples();
    IsClaimExtend(" Esta pasta ", "CURA", " a carie");
    assert " Esta pasta " + "CURA" + " a carie" == " Esta pasta CURA a carie";
  }

  /** A worked article: the fragment with the trigger is returned on its own,
      with its leading space and capitals; the neutral sentence and the empty
      piece after the final full stop are not. */
  lemma DetectClaimsExample()
    ensures DetectClaims("O esmalte protege. Esta pasta CURA a carie.") == [" Esta pasta CURA a carie"]
  {
    var frases := ["O esmalte protege", " Esta pasta CURA a carie", ""];
    ExampleFragments();
    ExampleClaimFragment();
    NeutralFragment();
    SubstringAndCaseExamples();
    assert frases[1..][1..] == [""];
    assert Filter(IsClaim, [""]) == [];
    assert Filter(IsClaim, frases[1..]) == [frases[1]];
    assert Filter(IsClaim, frases) == [frases[1]];
  }

  // ---------------------------------------------------------------------------
  // Verdict
  // ---------------------------------------------------------------------------

  /** Scores strictly above this are flagged. */
  const MisinformationThreshold: real := 0.6

  /** The two outcomes the page shows for a claim. */
  datatype Verdict = PotentialMisinformation | LowRisk

  /** `if score > 0.6` flag the claim, otherwise call it low risk. */
  function Classify(score: real): (v: Verdict)
    ensures v.PotentialMisinformation? <==> score > MisinformationThreshold
  {
    if score > MisinformationThreshold then PotentialMisinformation else LowRisk
  }

  /** There are exactly two outcomes and the cut is at 0.6 itself: 0.6 and
      everything below it are low risk, everything above is flagged. */
  lemma ClassifyBoundary(score: real)
    ensures Classify(MisinformationThreshold) == LowRisk
    ensures score <= MisinformationThreshold ==> Classify(score) == LowRisk
    ensures score > MisinformationThreshold ==> Classify(score) == PotentialMisinformation
  {
  }

  /** A higher score is never judged less risky. */
  lemma ClassifyMonotone(a: real, b: real)
    requires a <= b
    ensures Classify(a) == PotentialMisinformation ==> Classify(b) == PotentialMisinformation
    ensures Classify(b) == LowRisk ==> Classify(a) == LowRisk
  {
  }

  /** The page compares binary64 values: `random.random()` returns k / 2^53 for
      some 0 <= k < 2^53, and the literal 0.6 denotes the double below. */
  const TwoTo53: real := 9007199254740992.0
  const Double06: real := 5404319552844595.0 / TwoTo53

  /** For every score `random.random()` can return, comparing with the double
      nearest 0.6 and comparing with the exact 0.6 agree, so `Classify` on
      exact reals loses nothing. */
  lemma DoubleComparisonAgrees(k: nat)
    requires (k as real) < TwoTo53
    ensures (k as real / TwoTo53 > Double06) <==> (k as real / TwoTo53 > MisinformationThreshold)
  {
  }
}
