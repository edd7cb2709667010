# Casemix text verification, modelled in Dafny

The Casemix verification page (`app.py`) takes an uploaded text file and
shows it next to a "verified" copy. The copy is the text with a fixed,
ordered table of literal find/replace rules applied. The table maps the
insurer code `JKN` to `BPJS` and two ICD-10 codes (`T83.1`, `N13.1`) to
their Indonesian descriptions. Each rule is applied with Python's
`str.replace` to the output of the rule before it.

This project models that step:

- `str_replace.dfy` (module `StrReplace`) models Python's `str.replace`
  for a non-empty search string. `ReplaceAll` is the left-to-right scan:
  at a match it emits the replacement and skips the matched characters,
  otherwise it copies one character. Its partner is a Find-based reference
  definition (`Find` returns the leftmost occurrence, as `str.find` does).
  Two lemmas prove that `ReplaceAll` agrees with it. `Count` models
  `str.count` and gives the length law.
- `verification.dfy` (module `CasemixVerification`) holds the shipped rule
  table (`Rules`). `Verify` is the left fold of `ReplaceAll` over a rule
  sequence. `VerifyText` is the replacement loop, proved equal to the fold
  through its loop invariant. `ProcessUpload` is the page step: nothing
  happens without an upload, and the original text is kept beside its
  verified copy.

`options.dfy` (module `Options`) holds the `Option` type. `Find` uses it
for "no occurrence" and `ProcessUpload` uses it for "no file uploaded".

Text is `string` (a sequence of Unicode scalar values), which matches a
Python `str` after decoding.

## Model

| member | source | states |
|---|---|---|
| `StrReplace.Find` | app.py:28 | The leftmost-occurrence search that `str.replace` performs (`str.find`, with None for -1): a reported index leaves room for the whole search string inside the text. `FindIsLeftmost` states that the index is the leftmost occurrence. |
| `StrReplace.FindIsLeftmost` | app.py:28 | Find returns an index exactly when the search string occurs. That index is an occurrence, and no occurrence starts before it (leftmost match). |
| `StrReplace.ReplaceAllNoMatch` | app.py:28 | Reference definition, first half: when Find reports no occurrence, `replace` returns the text unchanged. |
| `StrReplace.ReplaceAllFirstMatch` | app.py:28 | Reference definition, second half: with the leftmost occurrence at `i`, the result is the text before `i`, then the replacement, then `replace` applied only to the text after the matched characters. The inserted replacement is never rescanned. |
| `StrReplace.ReplaceAllAbsent` | app.py:28 | A text in which the key does not occur comes back unchanged. |
| `StrReplace.ReplaceAllKeepsPrefix` | app.py:28 | The text before the first occurrence is kept unchanged at the start of the output, and the replacement follows it. |
| `StrReplace.ReplaceAll` | app.py:28 | `text.replace(old, new)` for a non-empty `old`. Its contract states that replacing a key by itself leaves every text unchanged. `ReplaceAllNoMatch` and `ReplaceAllFirstMatch` determine it completely from `Find`. |
| `StrReplace.Count` | app.py:28 | The number of matches the same scan finds (`str.count`). The matches, each as long as the key, fit side by side in the text (count × key length ≤ text length). |
| `StrReplace.CountIsMatches` | app.py:28 | The scan finds zero matches exactly when the key does not occur. |
| `StrReplace.ReplaceAllLength` | app.py:28 | Output length = input length + k·(\|new\| − \|old\|), where k is the number of non-overlapping matches the left-to-right scan finds. |
| `StrReplace.NonOverlappingScan` | app.py:28 | `"aaa".replace("aa", "b") == "ba"`: leftmost and non-overlapping. `"aaaa".replace("aa", "a") == "aa"`: the output is not rescanned. |
| `StrReplace.ReplaceAllFinalMatch` | app.py:28 | When the leftmost match is the last \|key\| characters, the text before it is kept and the replacement ends the output. |
| `StrReplace.ReplaceAllWhole` | app.py:28 | A text that is exactly the key becomes exactly the value. |
| `CasemixVerification.ShippedRulesValid` | app.py:10-15 | The shipped table `Rules`, in the dictionary's insertion order, has three rules, every key is non-empty and no key repeats (it is a dictionary). |
| `CasemixVerification.VerifyShipped` | app.py:10-15 | With the shipped table, verification is `replace("JKN", …)`, then `replace("T83.1", …)`, then `replace("N13.1", …)`, in insertion order. |
| `CasemixVerification.Verify` | app.py:26-28 | The verified text: the left fold of `replace` over the rules, in table order. Its contract states that a text containing none of the keys passes every rule unchanged. `VerifyAppend` and `VerifyText` characterise the fold. |
| `CasemixVerification.VerifyAppend` | app.py:27-28 | Running the rules in two parts equals running them all at once: the second part sees exactly the output of the first. |
| `CasemixVerification.VerifySnoc` | app.py:27-28 | A rule added at the end of the table is applied last, to the output of all earlier rules. |
| `CasemixVerification.VerifyAround` | app.py:27-28 | Rule `i` gets the output of the rules before it, and the rules after it get rule `i`'s output. |
| `CasemixVerification.VerifyText` | app.py:26-28 | The loop that rebinds `verified_text` for each rule in order returns the left fold of `replace` over the rules. With no rules it returns the input text. |
| `CasemixVerification.ProcessUpload` | app.py:17-28 | Without an upload, no page is produced. With an upload, the original text is kept as it is, and the verified copy is the shipped table's fold over it. |
| `CasemixVerification.VerifyKeyAlone` | app.py:26-28 | A text that is exactly the key of rule `i` becomes that rule's value. This needs no earlier key inside the key, and no later key inside the value. |
| `CasemixVerification.ShippedTableExamples` | app.py:11-13 | With the shipped table: `"JKN"` → `"BPJS"`, `"T83.1"` → `"Infeksi Alat Urologi"`, `"N13.1"` → `"Obstruksi Ureter dengan Hidronefrosis"`. |
| `CasemixVerification.VerifyFirstKeyPrefix` | app.py:26-28 | A text that starts with the first key becomes the first value followed by the rest. This needs the rest to hold no key, and no later key to appear once the value is in place. |
| `CasemixVerification.ShippedTableOrder` | app.py:11-13 | `"JKN" + "13.1"`, i.e. `"JKN13.1"`, becomes `"BPJS13.1"`. The `JKN` rule runs first and consumes the `N` that would have started `N13.1`. |
| `CasemixVerification.VerifyFirstKeySuffix` | app.py:26-28 | A text that ends with the first key, at its leftmost occurrence, keeps what comes before and ends with the first value. This needs no later key to appear afterwards. |
| `CasemixVerification.ReorderedTable` | app.py:10-15 | With `N13.1` moved to the front of the table, `"JKN13.1"` becomes `"JK"` followed by the `N13.1` description. The insertion order of the table therefore changes the result. |

## Left out

- The Streamlit page itself is left out: the title, file uploader, text areas, subheaders and download button (app.py:4, 7, 22-23, 31-40). It is presentation and browser I/O. `ProcessUpload` returns what those widgets display.
- UTF-8 decoding of the uploaded bytes (app.py:19) is left out, including the exception raised on invalid UTF-8. The model starts from the decoded `string`.
- Python's `str.replace` with an empty search string inserts the replacement before every character and once more at the end (`"ab".replace("", "-") == "-a-b-"`). The model does not cover this: every operation requires a non-empty key, and no shipped key is empty.
- The optional `count` argument of `str.replace` is left out. The source never passes it.
