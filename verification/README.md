# Password generator and breach check — Dafny model

This project models the logic of the single page component `src/pages/Index.tsx`
of a client-side password tool. Hooks, toasts and markup are stripped away. What
remains is:

- **Generator** (`generator.dfy`). The alphabet is the concatenation of the enabled
  classes in the fixed order upper, lower, digits, symbols. The symbol class is the
  26-character literal of the source, so the alphabet has at most 88 characters.
  Each 32-bit random word `w` becomes `charset[w % |charset|]`. The history is
  `[new] + prev[..min(9, |prev|)]`.
- **Strength** (`strength.dfy`). The additive heuristic uses ASCII-only class tests.
  The three display bands below 40, 40 to 69, and 70 or more are shared by the label,
  the bar colour and the label's text colour.
- **Hex rendering** (`hex.dfy`). The 20-byte digest is rendered through
  `toString(16)`, `padStart(2, '0')`, `join` and `toUpperCase`, then split into a
  5-digit range prefix and a 35-digit suffix. A decoder inverts the rendering.
- **Breach protocol** (`breach.dfy`). This is the k-anonymity range query of the
  Pwned Passwords service. Only the prefix goes into the request URL. The response
  body is split at `\n`, the first line that starts with the suffix is found, and
  `parseInt` reads the text after `:`.
- **Session** (`session.dfy`). This is the view state: password, history, strength,
  `breachCount` and `isChecking`. It has explicit transitions for generation (with
  the strength recomputation that follows a password change), mounting, and the
  breach check.
- `charclass.dfy` holds the four alphabets and the ASCII class predicates.
  `wrappers.dfy` holds `Option`.

The random source, SHA-1 and the network are parameters. The random words are a
`seq<Word32>`. The digest is an opaque `seq<byte>`. The network is a total function
from URL to `Option<body>`, where `None` stands for any thrown error.

Some behaviour of `src/pages/Index.tsx` is easy to misread, and the model keeps it
as the code has it:

- The symbol literal (line 31) has 26 characters.
- A response line matches when it `startsWith` the suffix (line 129).
- An empty matched line is falsy, so it counts as no match and records 0 (line 131).
- A matched line without a parseable count stores NaN in `breachCount` (line 132).
  The toast then reports the password as compromised (lines 134-138). The result
  panel tests `breachCount > 0` and shows it as not found (lines 337-342).
- The label is always computed from the stored strength (line 211), and an empty
  password leaves the stored strength unchanged (lines 64-68).

## Model

| member | source | states |
|---|---|---|
| CharClass.AlphabetSizes | src/pages/Index.tsx:28-31 | the upper, lower, digit and symbol literals have 26, 26, 10 and 26 characters |
| CharClass.UpperIsAsciiUpper | src/pages/Index.tsx:28 | a character is in the upper-case literal exactly when it is in `A-Z` |
| CharClass.LowerIsAsciiLower | src/pages/Index.tsx:29 | a character is in the lower-case literal exactly when it is in `a-z` |
| CharClass.DigitsIsAsciiDigit | src/pages/Index.tsx:30 | a character is in the digit literal exactly when it is in `0-9` |
| CharClass.SymbolsAreSpecial | src/pages/Index.tsx:31 | every generator symbol lies outside `[a-zA-Z0-9]`, so it earns the special-character points |
| CharClass.ClassesDisjoint | src/pages/Index.tsx:28-31 | the four classes share no character |
| Generator.Charset | src/pages/Index.tsx:27-33 | the alphabet is the enabled classes' blocks in the order upper, lower, digits, symbols: its size is the sum of the enabled classes' sizes, and each enabled class's literal sits at the offset given by the enabled classes before it; it has at most 88 characters, is empty exactly when no class is enabled, and contains exactly the enabled classes' characters |
| Generator.CharsetBlocks | src/pages/Index.tsx:28-31 | the concatenation has the enabled classes' literals as consecutive blocks in the order upper, lower, digits, symbols |
| Generator.CharsetMembers | src/pages/Index.tsx:28-31 | the concatenation in the order upper, lower, digits, symbols contains exactly the enabled classes' characters |
| Generator.Assemble | src/pages/Index.tsx:42-48 | the loop yields one character per random word, and character `i` is `charset[words[i] % |charset|]`, which is in the alphabet; it computes the same string as the functional form used by the session |
| Generator.GeneratePassword | src/pages/Index.tsx:27-48 | no password exactly when no class is enabled; otherwise exactly `length` characters, each from an enabled class, character `i` being the alphabet entry at `words[i] % |alphabet|` |
| Generator.EveryEnabledCharReachable | src/pages/Index.tsx:47 | every character of an enabled class is selected by some 32-bit word |
| Generator.WordSelecting | src/pages/Index.tsx:47 | in an alphabet of at most 88 characters, a character's index is a word that selects it |
| Generator.PushHistory | src/pages/Index.tsx:51 | the new history has `min(|prev| + 1, 10)` entries, starts with the new password, and continues with the leading prefix of the previous history in order |
| Generator.PushAllKeepsNewestTen | src/pages/Index.tsx:51 | after any run of generations, the history is the ten most recent passwords newest first, followed by what is left of the earlier history |
| Strength.Score | src/pages/Index.tsx:54-62 | the score is at most 100 and equals the uncapped sum of the five rule points, so the cap never clamps |
| Strength.CalculateStrength | src/pages/Index.tsx:54-62 | one pass over the characters collecting the four class flags computes the same score as the rule definitions |
| Strength.ScoreMonotoneUnderAppend | src/pages/Index.tsx:54-62 | appending characters to a password never lowers its score |
| Strength.ScoreExamples | src/pages/Index.tsx:54-100 | the empty string scores 0, twelve `a` score 25, `Aaaaaaaaaaaaaaaa` scores 70 and is labelled strong, `Aa1!Aa1!Aa1!` scores 75 |
| Strength.BandOf | src/pages/Index.tsx:90-100 | the band is Weak exactly below 40, Medium exactly in [40, 70), Strong exactly from 70 |
| Strength.StrengthLabel | src/pages/Index.tsx:96-100 | the label is the weak, medium or strong text exactly on the three score intervals |
| Strength.StrengthColor | src/pages/Index.tsx:90-94 | the bar colour is red, yellow or green exactly on the three score intervals |
| Strength.StrengthTextColor | src/pages/Index.tsx:209 | the label's text colour is red, yellow or green exactly on the three score intervals |
| Strength.BandsAgree | src/pages/Index.tsx:90-100 | label, bar colour and text colour are all functions of the same band, so they partition the score range identically |
| Strength.BandMonotone | src/pages/Index.tsx:90-100 | a higher score never falls into a lower band |
| Strength.LongPasswordAtLeastMedium | src/pages/Index.tsx:56-57 | any password of 16 or more characters rates at least Medium |
| Hex.ToStringRadix16 | src/pages/Index.tsx:120 | `toString(16)` of a value below 16 is one lower-case digit; of a value in [16, 256) it is two digits, high nibble first |
| Hex.PadStart | src/pages/Index.tsx:120 | the padded string has length `max(|s|, width)`, ends with `s`, and is filled with the fill character in front |
| Hex.PaddedHexIsByteToHex | src/pages/Index.tsx:120 | `b.toString(16).padStart(2, '0')` is exactly the two lower-case digits of the byte's high and low nibble |
| Hex.JoinHex | src/pages/Index.tsx:120 | the joined rendering has two characters per byte |
| Hex.JoinHexAt | src/pages/Index.tsx:120 | the two digits of byte `k` occupy positions `2k` and `2k + 1` of the joined string |
| Hex.ToUpperCase | src/pages/Index.tsx:120 | upper-casing keeps the length and maps each character through the ASCII upper-case mapping |
| Hex.UpperDigit | src/pages/Index.tsx:120 | every rendered nibble is a character of `0-9A-F` |
| Hex.HashHex | src/pages/Index.tsx:119-120 | a digest of `n` bytes renders as `2n` characters |
| Hex.HashHexAt | src/pages/Index.tsx:119-120 | byte `k` renders as the upper-case digits of its high and low nibble at positions `2k` and `2k + 1` |
| Hex.HashHexIsUpperHex | src/pages/Index.tsx:120 | the rendering uses only `0-9A-F` |
| Hex.HashHexCons | src/pages/Index.tsx:120 | rendering a digest renders its first byte, then the rest |
| Hex.DigitValue | src/pages/Index.tsx:120 | exactly the upper-case hex digits have a value, and it is below 16 |
| Hex.DigitValueOfUpperDigit | src/pages/Index.tsx:120 | reading a rendered nibble gives back the nibble |
| Hex.ParseHex | src/pages/Index.tsx:120 | a successful decode yields one byte per two characters |
| Hex.ParseHexCons | src/pages/Index.tsx:120 | decoding consumes two digits and then decodes the rest |
| Hex.ParseHashHex | src/pages/Index.tsx:119-120 | decoding the rendering of any digest gives back that digest |
| Hex.HashHexInjective | src/pages/Index.tsx:119-120 | different digests never render to the same string |
| Hex.SplitRange | src/pages/Index.tsx:122-123 | prefix followed by suffix is the whole rendering, and the prefix has 5 characters whenever the rendering does |
| Hex.DigestSplitSizes | src/pages/Index.tsx:118-123 | for a 20-byte digest the prefix has 5 characters and the suffix 35 |
| Breach.Split | src/pages/Index.tsx:128 | `split` yields at least one piece and no piece contains the separator |
| Breach.JoinSplit | src/pages/Index.tsx:128 | joining the pieces of a split restores the text |
| Breach.SplitJoin | src/pages/Index.tsx:128 | splitting a join of separator-free pieces restores the pieces |
| Breach.SplitAfterPlainPrefix | src/pages/Index.tsx:128 | a separator-free leading stretch stays in the first piece |
| Breach.SplitAtSeparator | src/pages/Index.tsx:128 | a leading separator produces an empty first piece |
| Breach.SplitHeadIsPrefix | src/pages/Index.tsx:132 | the first piece of a split is a prefix of the text |
| Breach.SplitJoinSingle | src/pages/Index.tsx:132 | a text without the separator splits into itself alone |
| Breach.FindLine | src/pages/Index.tsx:129 | a found index is the first line that starts with the suffix; nothing is found exactly when no line starts with it |
| Breach.DigitRun | src/pages/Index.tsx:132 | the digit run is the longest all-digit prefix |
| Breach.ParseInt | src/pages/Index.tsx:132 | `parseInt` is NaN exactly when the text does not start with a digit |
| Breach.DecimalValueOfString | src/pages/Index.tsx:132 | the value of a number's rendering is that number |
| Breach.DigitRunAfterDigits | src/pages/Index.tsx:132 | a digit string followed by a non-digit has a digit run of its own length |
| Breach.ParseIntDecimalString | src/pages/Index.tsx:132 | `parseInt` reads back a rendered number followed by anything that does not start with a digit |
| Breach.CountField | src/pages/Index.tsx:132 | a line without `:` reads as NaN |
| Breach.CountFieldOfRecord | src/pages/Index.tsx:132 | a `SUFFIX:COUNT` line, whatever follows the digits, reads as COUNT |
| Breach.ScanLines | src/pages/Index.tsx:129-145 | when no line starts with the suffix there is no reading, and the caller records 0; when some line starts with a non-empty suffix there is a reading; any reading is the count field of the first line that starts with the suffix |
| Breach.ScanResponse | src/pages/Index.tsx:128-145 | when no line of the body starts with the suffix there is no reading; when one starts with a non-empty suffix there is one; any reading is the count field of a line of the body that starts with the suffix |
| Breach.ScanResponseOfJoin | src/pages/Index.tsx:128-129 | a body made of newline-free lines joined by `\n` scans exactly as those lines do |
| Breach.ScanIgnoresEarlierLines | src/pages/Index.tsx:128-131 | lines before the first match do not affect the result |
| Breach.ScanSkipsLine | src/pages/Index.tsx:129 | a leading line that does not match does not affect the result |
| Breach.ScanFindsRecord | src/pages/Index.tsx:128-133 | a `SUFFIX:COUNT` record after non-matching lines yields COUNT |
| Breach.ScanBodyFindsRecord | src/pages/Index.tsx:128-133 | a multi-line body whose first record for the suffix is `SUFFIX:COUNT` reports COUNT |
| Breach.ScanSingleRecord | src/pages/Index.tsx:128-133 | the body `SUFFIX:42` yields 42 |
| Breach.RangeUrl | src/pages/Index.tsx:122-125 | the request is the range endpoint followed by 5 characters for a 20-byte digest |
| Breach.RangeUrlRevealsTwentyBits | src/pages/Index.tsx:119-125 | two 20-byte digests give the same request exactly when they agree on their first two bytes and the high nibble of the third |
| Breach.UrlEqualIffPrefixEqual | src/pages/Index.tsx:125 | two requests are equal exactly when their prefixes are |
| Breach.PrefixEqualIffDigits | src/pages/Index.tsx:122 | two 5-digit prefixes are equal exactly when their five digits agree |
| Breach.ByteDigitsAgree | src/pages/Index.tsx:120 | a byte's two rendered digits agree exactly when the bytes agree |
| Breach.HighDigitAgree | src/pages/Index.tsx:120 | a byte's first rendered digit agrees exactly when the high nibbles agree |
| Breach.UpperDigitInjective | src/pages/Index.tsx:120 | distinct nibbles render to distinct digits |
| Breach.RunProtocol | src/pages/Index.tsx:115-145 | the check fails exactly when the range request gets no body |
| Breach.ProtocolAsksOnlyRange | src/pages/Index.tsx:125-126 | the outcome depends on the network only through the answer to the one range request |
| Session.InitialValid | src/pages/Index.tsx:13-23 | the initial state is valid, idle and has no breach result |
| Session.RecomputeStrength | src/pages/Index.tsx:64-68 | a non-empty password gets its score; an empty one leaves the state unchanged; nothing but the strength changes |
| Session.Generate | src/pages/Index.tsx:26-52 | with no class enabled the state is unchanged and the error notice is raised; otherwise the password is the one the words select from the alphabet, has the requested length with characters from the enabled classes, the history is pushed, and the strength is recomputed; the breach fields never change |
| Session.GeneratePreservesValid | src/pages/Index.tsx:26-68 | generation keeps the history bounded by 10, headed by the current password, and keeps the strength equal to the current password's score |
| Session.Mount | src/pages/Index.tsx:70-72 | the generation on mount yields a 16-character password that is the only history entry |
| Session.MountRatesAtLeastMedium | src/pages/Index.tsx:14-18 | after mounting with the default settings, the state is valid and the strength is at least 50, so at least Medium |
| Session.BeginCheck | src/pages/Index.tsx:103-113 | an empty candidate changes nothing and raises the validation notice; otherwise the check is in flight and the previous result is cleared |
| Session.SettleCheck | src/pages/Index.tsx:128-154 | after any outcome nothing is in flight; a failure leaves the result as it was; a completed scan records its reading or 0; nothing else changes |
| Session.CheckBreach | src/pages/Index.tsx:102-155 | an empty candidate changes nothing; otherwise nothing is left in flight, the result is null exactly when the range request failed, and otherwise it is the scanned count or 0; password, history and strength never change |
| Session.EmptyCandidateMakesNoRequest | src/pages/Index.tsx:103-110 | with an empty candidate the outcome is the same whatever the network would answer |
| Session.CheckPreservesValid | src/pages/Index.tsx:102-155 | a check keeps a valid, idle state valid and idle |
| Session.CheckReportsListedCount | src/pages/Index.tsx:128-138 | a body `SUFFIX:42` for the digest's suffix records 42 and raises the compromised notice |
| Session.BreachVerdict | src/pages/Index.tsx:336-344 | the panel is hidden exactly while the result is null, and shows "compromised" exactly for a positive count |
| Session.MatchWithoutCountShowsSafe | src/pages/Index.tsx:131-133 | a matched line without a count raises the compromised notice, yet the panel shows the password as not found |

## Left out

- SHA-1 (`crypto.subtle.digest`) and the UTF-8 encoding that feeds it are not modelled. The digest is an opaque byte sequence supplied by the caller.
- `crypto.getRandomValues` is not modelled. Its words are a caller-supplied `seq<Word32>`. Uniformity, modulo bias and "two generations differ" are probabilistic and not stated.
- `fetch` and `response.text()` are network I/O. They are a total function from URL to optional body, and `None` stands for every thrown error (failed request, failed digest, failed body read). HTTP status codes are not modelled; like the source, any body is scanned.
- Breach.ParseInt: models `parseInt` as the value of the leading decimal digits. Leading whitespace, signs, the `0x`/`0X` prefix that `parseInt` without a radix reads as hexadecimal (`parseInt("0x1A")` is 26, the model gives 0), and JavaScript number precision for very large counts are not modelled. Responses of the range service carry decimal counts.
- Strings are sequences of Unicode scalar values. JavaScript counts `length` in UTF-16 code units, so a character outside the Basic Multilingual Plane counts once here and twice there in the length rules of the strength score.
- Hex.ToUpperCase: maps only the ASCII letters. This is all it ever receives here, because it only sees hex digits.
- Clipboard writes, toast texts, `toLocaleString('ru-RU')` formatting and all markup and styling are UI. Toasts appear only as the kind of `Notice` a transition raises.
- React effect scheduling is not modelled as observers. The strength effect is applied inside `Session.Generate`, and the mount effect is `Session.Mount`. The effect is keyed on the password value. When a generation repeats the previous password, React skips the effect; under `Session.Valid` this gives the same strength the model recomputes.
- The slider bounds of 8 to 64 for the length are a widget property. Generation is modelled for every length.
- Overlapping breach checks are not modelled. The button is disabled while a check runs, but the Enter key handler of the input calls the check regardless. Checks are sequential transitions here.
- Discarding a result after the component is unmounted does not exist in the source and is not modelled.
