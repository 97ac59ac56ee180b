# Blind boolean SQL-injection extractor, modelled in Dafny

`solve.py` recovers the administrator's password from a login form that is
open to SQL injection. It works in three steps. First it asks whether the
stored password has length n, for n = 1..100, and keeps the first "yes".
Next, for each position it asks "is the character here c?" for every
candidate c in a fixed alphabet. If none matches, it tries a fallback list
of punctuation. If that also fails, it records `'?'`. Finally, if no `'?'`
was recorded, it logs in with the result and looks for the greeting.

The model replaces every HTTP POST with an abstract server. A `Server` is a
total function from the submitted form (username, password) to a response
(status, body text). A "true" verdict is status 200 with no
`"Invalid username"` in the body. A successful login is `"Hello, admin!"`
anywhere in the body. The payload templates are modelled character for
character, and so are the quote escaping, the candidate lists and the
decimal rendering of numbers.

Modules:
- `Wrappers`: `Option`, for Python's `None`.
- `Text`: Python's substring test, and decimal rendering with its inverse.
- `Oracle`: the form, the response, both verdicts, the escaping, and the two
  payload templates with their injectivity.
- `LengthSearch`: the scan over 1..100, proved against its specification
  function `FirstLengthFrom`.
- `Extraction`: the candidate lists and the scan over one list
  (`ScanCandidates`). `ExtractFlag` is proved equal to `Recovered`, which
  gives the character recorded at each position. This module also proves
  that the fallback pass is redundant, plus the round trip under a truthful
  server.
- `Pipeline`: the top-level flow (`Run`, equal to `Expected`) and the
  end-to-end result under a truthful server.

Structure compared with the source:
- In `extract_flag`, each of the two inner loops appends the matched
  character and then breaks. `ExtractFlag` runs the same two loops as calls
  to `ScanCandidates`, which returns the match, and appends it after the
  call. The resulting string is the same.
- `if password_length:` and `if not found_char:` test Python truthiness.
  Here they test `Some?` and `None?`. This is the same test: a found length
  is never 0, and a found character is never the empty string.

A "truthful server" is what the SQL engine would do with the injected
conditions:
- `ExactLengthServer`: the length query is true exactly for the stored
  length.
- `ExactCharServer`: the character query is true exactly when the SQL
  literal is the stored character at that 1-based position. The literal is
  read back with doubled quotes collapsed (`Unescape`).
- `HonestLoginServer`: the greeting appears exactly for the stored password.

`ExactCharServer` idealises the SQL engine in two ways. It gives a verdict
for every literal, even a malformed one such as a lone quote, where a real
engine would report a syntax error or run the injected text. No proof
depends on this, because only quote-free single characters are ever sent.
It also compares characters exactly. Under a case-insensitive collation a
stored `'A'` would match `'a'` first and be recorded as `'a'`, since the
lowercase letters come first in the alphabet.

## Model

| member | source | states |
|---|---|---|
| `Text.Contains` | solve.py:18 | Python's `pat in text`: true exactly when `pat` occurs at some offset of `text` |
| `Text.ContainsInside` | solve.py:53 | a body built around the marker always contains it |
| `Text.Decimal` | solve.py:9 | the f-string rendering of a number is digits only, at least one, with no leading zero |
| `Text.ParseDecimalOfDecimal` | solve.py:9 | the decimal digits an f-string writes for a number read back as that number |
| `Text.DecimalInjective` | solve.py:44 | distinct numbers are written as distinct digit strings |
| `Oracle.ConditionTrue` | solve.py:18 | the verdict on a query is true exactly when the status is 200 and "Invalid username" occurs at no offset of the body |
| `Oracle.LoginGreets` | solve.py:93 | the login verdict is true exactly when "Hello, admin!" occurs at some offset of the body |
| `Oracle.Verdict` | solve.py:11-18 | a probe with an injected username and password "x" is true exactly when the page has status 200 and "Invalid username" occurs at no offset of it |
| `Oracle.ConditionTrueCases` | solve.py:18 | a non-200 response is false, a body with "Invalid username" anywhere in it is false, and a 200 response with no such occurrence is true |
| `Oracle.GreetingAnywhere` | solve.py:93 | a body with "Hello, admin!" anywhere in it is a successful login, whatever the status |
| `Oracle.Escape` | solve.py:42 | escaping never shortens a string and leaves a quote-free string unchanged |
| `Oracle.EscapeChar` | solve.py:42 | a single quote is escaped as two quotes; any other character is left as it is |
| `Oracle.EscapeAppend` | solve.py:42 | escaping works character by character: the escape of a concatenation is the concatenation of the escapes |
| `Oracle.EscapeLength` | solve.py:42 | escaping lengthens a string by exactly the number of quotes in it |
| `Oracle.UnescapeEscape` | solve.py:42 | reading the escaped literal back as SQL gives the original string |
| `Oracle.LengthPayload` | solve.py:9 | the size of the length query is the sum of the sizes of the fixed prefix, the length's decimal digits and the comment marker; the layout itself is stated by `LengthPayloadLayout` |
| `Oracle.LengthPayloadLayout` | solve.py:9 | the length query starts with the fixed prefix, ends with " --", and what lies between is all digits reading back as the asked length |
| `Oracle.CharPayload` | solve.py:44 | the size of the character query is the sum of the sizes of the fixed prefix, the position's digits, the literal opening, the literal and the closing quote with comment marker; the layout itself is stated by `CharPayloadLayout` |
| `Oracle.CharPayloadLayout` | solve.py:44 | the character query is the fixed prefix, digits reading back as the position, `, 1)='`, exactly the literal, then `' --` |
| `Oracle.LengthPayloadInjective` | solve.py:9 | different lengths are asked with different injected usernames |
| `Oracle.CharPayloadInjective` | solve.py:44 | different (position, literal) pairs are asked with different injected usernames |
| `Oracle.PayloadKindsDiffer` | solve.py:9 | a length query never coincides with a character query, whatever the position and literal |
| `LengthSearch.FirstLengthFrom` | solve.py:8-27 | the result lies in from..100, is confirmed by the server, and no smaller length in range is confirmed; it is none exactly when no length in from..100 is confirmed |
| `LengthSearch.FindPasswordLength` | solve.py:4-27 | returns the smallest confirmed length in 1..100, or none exactly when all 100 verdicts are false; the lengths it asks are 1, 2, ... in that order, stopping right after the first confirmed one (all 100 when none is) |
| `LengthSearch.ExactLengthFound` | solve.py:8-27 | under a truthful server the search returns the stored length when it is in 1..100 and none otherwise |
| `Extraction.FallbackIsAlphabetTail` | solve.py:35-61 | the alphabet has 91 characters, and the fallback list is exactly its last 29, in the same order |
| `Extraction.AlphabetFacts` | solve.py:35 | no candidate is a single quote, and `'?'` is itself a candidate |
| `Extraction.EscapeIsIdentityOnAlphabet` | solve.py:42 | escaping leaves every candidate unchanged |
| `Extraction.FirstHit` | solve.py:40-57 | the first-match scan returns an index inside the list; that it is the first hit is stated by `FirstHitSpec` |
| `Extraction.FirstHitSpec` | solve.py:40-57 | the index `FirstHit` returns is the first one whose verdict is true; it returns none exactly when no verdict is true |
| `Extraction.Literal` | solve.py:42-44 | in the primary pass a quote is sent as two quotes and any other candidate as itself; in the fallback pass every candidate is sent as itself |
| `Extraction.ResolvedChar` | solve.py:37-78 | the character recorded for a position is never a single quote, so a stored quote can never be recovered |
| `Extraction.ResolvedIsConfirmed` | solve.py:37-78 | the character recorded for a position is the placeholder or a candidate the server confirmed there, in the primary or the fallback pass |
| `Extraction.FallbackRuns` | solve.py:59-61 | for each position 1..n, the fallback pass runs exactly when the primary pass confirms no candidate there |
| `Extraction.ResolvedIsCandidate` | solve.py:37-78 | every recorded character, the placeholder included, is in the alphabet |
| `Extraction.Recovered` | solve.py:37-80 | the recorded string has one character per position, and the i-th is the one resolved for position i+1 |
| `Extraction.ScanCandidates` | solve.py:40-74 | returns the first candidate, in list order, that the server confirms at the position, or none exactly when it confirms none; the candidates it asks are a prefix of the list, ending at the confirmed one (the whole list when none is) |
| `Extraction.ExtractFlag` | solve.py:29-80 | returns exactly `length` characters (none for a non-positive length), each being the primary match, else the fallback match, else `'?'`; the fallback pass is run at exactly the positions where the primary pass found nothing |
| `Extraction.FallbackRedundant` | solve.py:59-74 | every fallback candidate is the alphabet entry 62 places on, with the same payload as in the primary pass, so the fallback finds nothing where the primary pass found nothing |
| `Extraction.ResolvedIsFirstPrimaryHit` | solve.py:40-77 | a position records the first confirmed alphabet character, or `'?'` when no alphabet character is confirmed |
| `Extraction.SilentPositionGivesPlaceholder` | solve.py:76-78 | a position the server never confirms is recorded as `'?'` and extraction still covers every position |
| `Extraction.ResolvedUnderExactServer` | solve.py:40-57 | under a truthful server a position whose stored character is a candidate records that character |
| `Extraction.UnknownCharacterUnderExactServer` | solve.py:76-77 | under a truthful server a stored character outside the alphabet (a quote, say) is recorded as `'?'` |
| `Extraction.ExactServerRecovers` | solve.py:37-80 | round trip: under a truthful server, extraction returns a password drawn from the alphabet exactly |
| `Pipeline.VerifyExtraction` | solve.py:82-98 | the login check succeeds exactly when the greeting is in the body returned for username admin and the extracted password |
| `Pipeline.Expected` | solve.py:105-129 | no length exactly when none of 1..100 is confirmed; otherwise the first confirmed length (confirmed, and no smaller length in 1..100 is) with the string recorded for it, partial exactly when that string holds `'?'`, and when complete the login verdict for that string |
| `Pipeline.Run` | solve.py:105-129 | the run aborts exactly when no length in 1..100 is confirmed; otherwise it extracts as many characters as the first confirmed length, and it verifies exactly when the result contains no `'?'`; the length queries sent are 1, 2, ... up to the first confirmed one, extraction runs exactly when a length was found, and the one login attempt, with the extracted string, is sent exactly when the outcome is complete |
| `Pipeline.ExactServerRun` | solve.py:105-129 | under a truthful server and a 1..100-character alphabet password, the run recovers the password and the login confirms it; a genuine `'?'` in the password stops the run at a partial result, for which `Run` sends no login |
| `Pipeline.LetMe99iRun` | solve.py:105-129 | with stored password "letme99i", the run finds length 8, recovers the password and verifies it |
| `Pipeline.GreetingNotInMarker` | solve.py:93 | the "Invalid username" page does not count as a successful login |
| `Pipeline.TruthfulOnLength` | solve.py:8-20 | the server that greets only the stored password and answers injected conditions by their truth confirms exactly the stored length |
| `Pipeline.TruthfulOnCharacters` | solve.py:40-57 | that server confirms a character query exactly when its literal reads back as the stored character at that position |
| `Pipeline.TruthfulOnLogin` | solve.py:87-93 | that server greets the administrator exactly for the stored password |
| `Pipeline.TruthfulServerExists` | solve.py:105-129 | for every stored password some server is truthful for the length query, the character query and the login at once, so the assumptions of `ExactServerRun` can all hold |

## Left out

- The HTTP layer: the URL, form encoding and redirect following. A request is the application of a `Server` to the form.
- Everything printed: progress lines, the banner and the reports. None of it affects a result.
- Network failures and timeouts. These raise exceptions in the HTTP library and end the process. A `Server` always answers.
- The server's own SQL evaluation. It is not part of this program. The predicates `ExactLengthServer`, `ExactCharServer` and `HonestLoginServer` stand in for it where a property depends on it.
- A server that answers the same request differently over time. `Server` is a function, so every repetition of a query gets the same verdict. The redundancy of the fallback pass relies on this.
