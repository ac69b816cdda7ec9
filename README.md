# DetectaOdonto decision rules in Dafny

DetectaOdonto is a one-page Streamlit app. It takes the URL of a dental-health
article, extracts the article's text, shows a preview of it, picks out
sentences that look like health claims, and gives each claim a verdict. This
project models the three rules that decide what the page shows. It proves what
those rules guarantee.

- **Preview** (`streamlit_app.py:26`). The page shows `texto[:800] + "..."`:
  the first 800 characters of the text, then an ellipsis. The ellipsis is
  added even when the text is shorter.
- **Claim detector** (`streamlit_app.py:29`). The text is cut at every `.`.
  A fragment is kept when its lower-cased form contains one of five
  Portuguese trigger phrases as a plain substring: `cura`, `substitui`,
  `elimina`, `resolve`, `sem dor`. Kept fragments stay unmodified and in order.
- **Verdict** (`streamlit_app.py:39-42`). A score strictly above 0.6 is
  flagged as potential misinformation. Any other score, 0.6 itself included,
  is low risk.

The files:

- `py_str.dfy` (module `PyStr`) models the Python builtins the detector is
  built from. `Lower` is `str.lower()` on ASCII letters. `Contains` is the
  substring test `needle in hay`. `Split` and `Join` are `str.split(sep)` and
  `sep.join(parts)` for a one-character separator. `Take` is `s[:n]`.
  `Filter` is the comprehension `[x for x in xs if p(x)]`. `Contains`, `Split`
  and `Filter` each have an independent reference definition or an inverse,
  with lemmas connecting the two; `Lower` and `Take` are specified pointwise
  and by their contracts.
- `streamlit_app.dfy` (module `StreamlitApp`) holds the app's constants and
  rules. The constants are `PreviewLength` (800), `Ellipsis` (`"..."`),
  `ClaimSeparator` (`'.'`), `Triggers` (the five phrases) and
  `MisinformationThreshold` (0.6). The rules are `Preview`, `IsClaim`,
  `DetectClaims` and `Classify`, each with the lemmas about it.

The article text and the score are parameters. The code has two verdicts,
a score above 0.6 is flagged, and the trigger phrases are Portuguese.

The score on the page is a binary64 `random.random()` value compared with
the binary64 literal `0.6`. `Classify` takes an exact real and compares it
with the exact 0.6. `DoubleComparisonAgrees` shows the two comparisons agree
on every value `random.random()` can return, which is `k / 2^53` for
`0 <= k < 2^53`.

## Model

| member | source | states |
|---|---|---|
| StreamlitApp.Preview | streamlit_app.py:26 | the preview has length min(800, len(texto)) + 3; it is a prefix of the text followed by "..." |
| StreamlitApp.PreviewShortText | streamlit_app.py:26 | a text of at most 800 characters is shown whole, and the ellipsis is still appended |
| StreamlitApp.PreviewLongText | streamlit_app.py:26 | a longer text gives a preview of exactly 803 characters, fixed by the first 800 characters of the text |
| PyStr.Take | streamlit_app.py:26 | `s[:n]` has length min(n, len(s)) and is a prefix of s |
| PyStr.LowerChar | streamlit_app.py:29 | ASCII upper-case letters move to lower case; every other character is unchanged; no upper-case letter remains |
| PyStr.Lower | streamlit_app.py:29 | `frase.lower()` keeps the length and lower-cases each character in place |
| PyStr.LowerIdempotent | streamlit_app.py:29 | lower-casing twice is the same as lower-casing once |
| PyStr.LowerConcat | streamlit_app.py:29 | lower-casing distributes over concatenation |
| PyStr.LowerOfLowerCase | streamlit_app.py:29 | a string with no upper-case letter is its own lower-case form |
| PyStr.Contains | streamlit_app.py:29 | `x in s`: the empty phrase occurs in every text, and a phrase longer than the text never occurs |
| PyStr.ContainsFromOccurs | streamlit_app.py:29 | `x in s` holds whenever some window of s equals x |
| PyStr.OccursFromContains | streamlit_app.py:29 | when `x in s` holds, it yields a window of s equal to x |
| PyStr.ContainsIff | streamlit_app.py:29 | `x in s` holds if and only if x occurs at some position of s |
| PyStr.ContainsExtend | streamlit_app.py:29 | an occurrence survives adding text on either side |
| PyStr.ContainsChars | streamlit_app.py:29 | every character of an occurring needle is a character of the haystack |
| PyStr.Count | streamlit_app.py:29 | the count of a character is at most the length, and it is zero exactly when the character is absent |
| PyStr.Split | streamlit_app.py:29 | `texto.split(".")` always returns at least one fragment, even for the empty text |
| PyStr.SplitNoSep | streamlit_app.py:29 | no fragment contains the separator |
| PyStr.JoinSplit | streamlit_app.py:29 | the fragments joined with "." reproduce the text exactly |
| PyStr.SplitCount | streamlit_app.py:29 | there is one more fragment than there are full stops |
| PyStr.SplitJoin | streamlit_app.py:29 | separator-free fragments, joined and split again, come back unchanged |
| PyStr.SplitUnique | streamlit_app.py:29 | the split is the only list of separator-free fragments that joins back to the text |
| PyStr.JoinFactor | streamlit_app.py:29 | every fragment appears inside the text, with text around it |
| PyStr.LowerAll | streamlit_app.py:29 | lower-cases each element of a list, keeping the length |
| PyStr.SplitLower | streamlit_app.py:29 | lower-casing the text lower-cases each fragment and moves no cut, because "." is not a letter |
| PyStr.Filter | streamlit_app.py:29 | the comprehension's result is no longer than its input, and each element is an input element that passes the test |
| PyStr.SelectedCons | streamlit_app.py:29 | a selection from a list extends to one from the list with an element in front |
| PyStr.SelectedTail | streamlit_app.py:29 | a selection from a non-empty list gives a selection from its tail |
| PyStr.FilterSelects | streamlit_app.py:29 | the comprehension keeps exactly the elements that pass, unmodified and in their original order |
| PyStr.SelectedIsFilter | streamlit_app.py:29 | any ordered selection of exactly the passing elements equals the comprehension's result |
| PyStr.FilterLower | streamlit_app.py:29 | when the test ignores case, filtering commutes with lower-casing |
| StreamlitApp.AnyIn | streamlit_app.py:29 | `any(x in s for x in triggers)` holds if and only if some trigger of the list occurs in s |
| StreamlitApp.IsClaim | streamlit_app.py:29 | a fragment passes the comprehension's test if and only if one of the five triggers occurs in its lower-cased form |
| StreamlitApp.DetectClaims | streamlit_app.py:29 | soundness: every claim passes the trigger test and contains no "." |
| StreamlitApp.DetectClaimsExact | streamlit_app.py:29 | the claims are exactly the "."-fragments that contain a trigger once lower-cased, in text order, each with its own case and spacing |
| StreamlitApp.DetectClaimsUnique | streamlit_app.py:29 | any ordered selection of exactly the triggering fragments is what the detector returns |
| StreamlitApp.IsClaimExtend | streamlit_app.py:29 | a fragment with a trigger makes any text around it contain that trigger |
| StreamlitApp.NoTriggerNoClaims | streamlit_app.py:29-32 | a text with no trigger anywhere yields no claims, so the rendering loop runs zero times |
| StreamlitApp.EmptyTextNoClaims | streamlit_app.py:29-32 | the empty text yields no claims |
| StreamlitApp.IsClaimIgnoresCase | streamlit_app.py:29 | two fragments with the same lower-case form pass or fail together |
| StreamlitApp.DetectClaimsLower | streamlit_app.py:29 | lower-casing the whole text gives the same claims, lower-cased |
| StreamlitApp.ClaimCountBound | streamlit_app.py:29 | there are at most as many claims as full stops plus one |
| StreamlitApp.SubstringAndCaseExamples | streamlit_app.py:29 | "CURA" and "procura" pass the test and the empty fragment does not |
| StreamlitApp.NeutralFragment | streamlit_app.py:29 | a sentence with no trigger phrase fails the test |
| StreamlitApp.ExampleFragments | streamlit_app.py:29 | a two-sentence text splits into its two sentences and the empty piece after the final "." |
| StreamlitApp.ExampleClaimFragment | streamlit_app.py:29 | a sentence with a trigger in capitals passes the test |
| StreamlitApp.DetectClaimsExample | streamlit_app.py:29-33 | in a two-sentence article only the sentence with the trigger is returned, with its leading space and capitals kept |
| StreamlitApp.Classify | streamlit_app.py:39-42 | the verdict is potential misinformation exactly when the score is strictly above 0.6 |
| StreamlitApp.ClassifyBoundary | streamlit_app.py:39-42 | there are two outcomes and exactly 0.6 is low risk |
| StreamlitApp.ClassifyMonotone | streamlit_app.py:39-42 | a higher score is never judged less risky |
| StreamlitApp.DoubleComparisonAgrees | streamlit_app.py:37-39 | on every value `random.random()` returns, comparing with the binary64 0.6 and with the exact 0.6 agree |

## Left out

- Article download and parsing (`streamlit_app.py:20-23`): this is network I/O and HTML extraction through an external library, and the imported module does not provide `Article`. The extracted text is a parameter.
- Random scoring (`streamlit_app.py:36-37`): this is nondeterministic. The score is a parameter of `Classify`.
- Streamlit UI calls (`streamlit_app.py:10-16`, `25`, `31-33`, `40-48`) and the error message for exceptions (`streamlit_app.py:50-51`): presentation only. This covers the numbered claim headings and `claim.strip()`, which trims only the displayed text and never the claims.
- The unused model import (`streamlit_app.py:6`): it has no behaviour.
- PyStr.LowerChar: models `c.lower()` on ASCII only. Python also lower-cases non-ASCII capitals such as 'É', 'İ' and the Kelvin sign; here they stay unchanged.
- PyStr.Lower: models `str.lower()` on ASCII only and keeps the length, while Python's `'İ'.lower()` produces two characters. So a non-ASCII upper-case letter that lower-cases to part of a trigger is not matched here. All five triggers are ASCII lower case.
