# material-kit-react input, validation and session logic in Dafny

This project models the self-contained logic of the material-kit-react admin
front end: the code that shapes and checks what a user types, builds bar
codes, and carries a login session from the first token check to its expiry.

- **Masking and normalisation.**
  - The digit-slot mask engine `applyMask`, the field and PIX-key mask choice
    of `applyMaskToField`, `removeMask`, `unmaskFields` and `maskFields`
    (`maskUtils`).
  - The component's own copy in `MaskedInput`, and the CNPJ input hook
    `useCnpjInput`.
  - The string, integer and decimal input normalisers of `formUtils` and
    `numberUtils`.
- **Validators.** The regular expressions behind the zod schemas, written as
  character shapes (`zodUtils`), and the `isACnpj` and `isAFloatNumber`
  recognisers.
- **Bar codes.** `findLongestCodBarra`, the EAN-13 check digit (the weighted
  modulo-10 scheme of section 7.9 of the GS1 General Specifications) and the
  duplicate and too-short bar-code checks (`barcodeUtils`).
- **Session lifecycle.**
  - `AuthProvider`: login, token verification, the expired-token logout,
    permission checks and its effects.
  - The `LoginTimer` countdown with its warnings, expiry and duration text.
  - The `UserPrivate` route guard, and the global state of
    `GlobalDataProvider`.
- **Collection helpers.**
  - From the API service: `parseApiResponse`, the flag discipline of
    `fetchData`, product grouping by code prefix in `getProducts`, the colour
    sort of `getColors` and the client list chosen by `getClients`.
  - `filterDifferentValues` and the `stringUtils` helpers
    `capitalizeFirstLetter` and `isEmpty`.

Code that works step by step is modelled step by step. React state becomes
the fields of a class, and an effect becomes a method named after its
dependencies (`OnTokenHasExpiredChanged`). An asynchronous call becomes the
method that runs when it settles, and its reply is a parameter. Each such
method is proved against a function that specifies it. What the browser sees
is kept in `Browser.Window`:

- the `localStorage` entries;
- the toasts shown or dismissed;
- the paths navigated to.

Supporting modules:

- `JsText` models the JavaScript string operations the code relies on: `\d`,
  `trim`, `slice` with negative indices, `split`/`join`, `indexOf`,
  `parseInt`, `String(n)`, `toLowerCase` and string `<`.
- `JsValue` models JavaScript values, their truthiness and `String(v)`.
- `HookForm` models the `setValue`/`trigger` part of a react-hook-form form.

## Model

| member | source | states |
|---|---|---|
| MaskUtils.Masked | src/utils/maskUtils.ts:13-24 | the masked text is never longer than the mask, and an empty value gives "" |
| MaskUtils.ApplyMask | src/utils/maskUtils.ts:13-24 | the loop with the value index `i` computes `Masked(value, mask)` |
| MaskUtils.Consumed | src/utils/maskUtils.ts:16-21 | the number of value characters a mask takes is at most the value length and the slot count, and equals one of them |
| MaskUtils.MaskedConsumes | src/utils/maskUtils.ts:16-21 | the slots of the output hold exactly the first min(\|value\|, #slots) value characters, in order |
| MaskUtils.MaskedLiterals | src/utils/maskUtils.ts:19-21 | every non-slot position of the output holds the mask's own character |
| MaskUtils.MaskedStops | src/utils/maskUtils.ts:16-21 | a value longer than the slots fills the whole mask; otherwise the output ends at the slot taking the last value character, so a literal is emitted only while a value character remains |
| MaskUtils.MaskedConsumedPrefix | src/utils/maskUtils.ts:16-21 | for a mask ending in a slot, masking only the consumed characters gives the same text |
| MaskUtils.MaskRoundTrip | src/utils/maskUtils.ts:13-24 | for digits and a mask without digit literals, the digits of the masked text are the first `Consumed` digits of the value |
| MaskUtils.MaskedFillsShape | src/utils/maskUtils.ts:13-24 | enough digits make text of exactly the mask's shape |
| MaskUtils.ShapeIsMaskImage | src/utils/maskUtils.ts:13-24 | text of a mask's shape is that mask applied to its own digits |
| MaskUtils.MatchesShapeIffMaskImage | src/utils/maskUtils.ts:13-24 | a text has a mask's shape iff it is that mask applied to a digit string with one digit per slot |
| MaskUtils.CpfMaskSlots | src/utils/maskUtils.ts:27 | the CPF mask has 11 slots |
| MaskUtils.PercentMaskSlots | src/utils/maskUtils.ts:28 | the percentage mask has 4 slots |
| MaskUtils.FixedPhoneMaskSlots | src/utils/maskUtils.ts:29 | the fixed-phone mask has 10 slots |
| MaskUtils.CellPhoneMaskSlots | src/utils/maskUtils.ts:30-31 | the cell-phone mask has 11 slots |
| MaskUtils.CepMaskSlots | src/utils/maskUtils.ts:33 | the CEP mask has 8 slots |
| MaskUtils.CnpjMaskSlots | src/utils/maskUtils.ts:32-52 | the CNPJ masks have 14 and 15 slots and are the shapes `isACnpj` accepts |
| MaskUtils.MaskMapRoundTrip | src/utils/maskUtils.ts:13-107 | `removeMask(applyMask(d, maskMap[f]))` is the first min(\|d\|, #slots) digits of `d`, for every field |
| MaskUtils.CpfMaskShape | src/utils/maskUtils.ts:13-27 | eleven digits under the CPF mask have the shape ddd.ddd.ddd-dd and give back the eleven digits |
| MaskUtils.CpfMaskRoundTrip | src/utils/maskUtils.ts:13-107 | `removeMask` of eleven masked CPF digits is those digits |
| MaskUtils.RemoveMask | src/utils/maskUtils.ts:105-107 | the result is all digits and no longer than the input |
| MaskUtils.RemoveMaskLaws | src/utils/maskUtils.ts:105-107 | `removeMask` is idempotent, distributes over concatenation and keeps the count of every digit |
| MaskUtils.PixMask | src/utils/maskUtils.ts:76-99 | "cpf", "cnpj", "phone" and "random" choose a non-empty mask ending in a slot; any other key type chooses "" |
| MaskUtils.PadStart2 | src/utils/maskUtils.ts:68 | a text shorter than two characters gets zeros in front up to two; a longer one is unchanged |
| MaskUtils.PercentValue | src/utils/maskUtils.ts:57-74 | the percentage text; `PercentValueDefault` and `PercentValuePads` state what it is |
| MaskUtils.PercentValuePads | src/utils/maskUtils.ts:64-71 | with a dot and a short integer part the value gets zeros in front; otherwise it is unchanged |
| MaskUtils.PercentValueDefault | src/utils/maskUtils.ts:58 | without a current value the percentage is "0" |
| MaskUtils.FieldMask | src/utils/maskUtils.ts:47-54 | every field but "cnpj" keeps its `maskMap` mask |
| MaskUtils.FieldMasked | src/utils/maskUtils.ts:43-45 | an empty value or a field without a mask is returned unchanged |
| MaskUtils.ApplyMaskToField | src/utils/maskUtils.ts:37-103 | the step-by-step reassignment of `mask` and `fieldValue` computes `FieldMasked` |
| MaskUtils.CnpjFieldMask | src/utils/maskUtils.ts:47-102 | 14 digits get the 14-digit layout and 15 or more the 15-digit one; either way `isACnpj` accepts the result |
| MaskUtils.CnpjFieldValue | src/utils/maskUtils.ts:50-102 | a CNPJ value of 15 or more characters is masked with the 15-digit mask, a shorter one with the 14-digit mask |
| MaskUtils.PlainFieldValue | src/utils/maskUtils.ts:47-102 | other fields without a PIX key type are masked with their `maskMap` mask |
| MaskUtils.PixKeyMask | src/utils/maskUtils.ts:76-102 | a given PIX key type decides the mask of any non-percentage field; "email" and unknown types return the value unmasked |
| MaskUtils.PercentFieldIgnoresTypedText | src/utils/maskUtils.ts:57-102 | the percentage field returns its percentage value, whatever was typed |
| MaskUtils.UnmaskFields | src/utils/maskUtils.ts:109-141 | the keys are exactly the listed fields that are non-empty ("chavepix" only with a key type other than "email"), each holding its digits |
| MaskUtils.MaskedEntry | src/utils/maskUtils.ts:149-170 | every new value is a string; an unmasked string field is kept as it is, and null becomes "". A number in a masked field becomes "0" under the percentage mask and "" under any other |
| MaskUtils.MaskableNumberIff | src/utils/maskUtils.ts:152-157 | a number can be masked without throwing iff it is negative or at least 1e21. A negative number's "-" fails `isAFloatNumber`, and so does the "e" of the exponent form; any other number renders as plain digits, passes `isAFloatNumber` and reaches `removeMask` |
| MaskUtils.MaskedCommissionIsZero | src/utils/maskUtils.ts:152-160 | `maskFields` writes "0" for every non-empty commission text |
| MaskUtils.MaskedDigitsEntry | src/utils/maskUtils.ts:152-160 | a digit string in a masked field is float-like, so it is masked as it is |
| MaskUtils.MaskedCpfEntry | src/utils/maskUtils.ts:152-160 | eleven raw CPF digits come out as ddd.ddd.ddd-dd holding those digits |
| MaskUtils.MaskedCpfIsMaskedAgain | src/utils/maskUtils.ts:152-160 | an already formatted CPF is neither float-like nor a CNPJ, so it is masked a second time |
| MaskUtils.RemaskedCpfSlots | src/utils/maskUtils.ts:152-160 | masking a formatted CPF again puts its first eleven characters into the slots, including the dot after the third digit |
| MaskUtils.NotFloatLikeOrCnpj | src/utils/maskUtils.ts:153-154 | a text of the CPF shape is neither float-like nor a CNPJ |
| MaskUtils.MaskFields | src/utils/maskUtils.ts:143-174 | the record keeps its keys and each value becomes `MaskedEntry` of its old value |
| MaskedInput.LocalMasked | src/components/others/MaskedInput/index.tsx:43-55 | an empty value or mask returns the value unchanged; otherwise the result is `maskUtils`' `applyMask` |
| MaskedInput.ApplyMask | src/components/others/MaskedInput/index.tsx:43-55 | the component's loop computes `LocalMasked` |
| MaskedInput.DisplayedIsStable | src/components/others/MaskedInput/index.tsx:58-61 | re-typing a shown value shows it again, for a mask without digit literals that ends in a slot |
| MaskedInput.MaskedInput.constructor | src/components/others/MaskedInput/index.tsx:31-42 | `setInputValue` defaults to true |
| MaskedInput.MaskedInput.HandleChange | src/components/others/MaskedInput/index.tsx:57-100 | above the maximum only the masked maximum is stored. Otherwise the digits are masked and shown, and the listener gets the masked text and the digits. The form stores the masked text only with `setInputValue`, and validates it only once submitted |
| CnpjInput.CnpjInput.constructor | src/hooks/useCnpjInput.ts:31 | the display mask starts as the 15-digit one |
| CnpjInput.CnpjInput.HandleCnpjChange | src/hooks/useCnpjInput.ts:34-52 | a missing value reads as "" and its digits are masked by `applyMaskToField` and stored. The display mask is the 15-digit one iff there are more than 13 digits, and the field is validated after the store |
| CnpjInput.StoredCnpj | src/hooks/useCnpjInput.ts:39-46 | from 14 digits the stored CNPJ passes `isACnpj`; at exactly 14 it has the 14-digit layout while the display mask is the 15-digit one |
| CnpjInput.ShortCnpjDisplay | src/hooks/useCnpjInput.ts:39-40 | the display mask is the 14-digit one iff there are at most 13 digits |
| FormUtils.NormalizeStringInput | src/utils/formUtils.tsx:19-31 | the result is a prefix of the input, no longer than `maxLength`, and the input itself without a limit |
| FormUtils.KeptDigits | src/utils/formUtils.tsx:7-12 | only digits are kept |
| FormUtils.NormalizeIntegerInput | src/utils/formUtils.tsx:3-17 | the result is "0" iff the kept digits are worth 0. Below 1e21 it is a digit string without leading zeros whose value is that of the kept digits; from 1e21 up to 2^1024 − 2^970 it is the exponent form, with an "e" and the value's leading digit first; from 2^1024 − 2^970 on `parseInt` gives `Infinity` and the result is "Infinity" |
| FormUtils.NormalizeIntegerInputNoDigits | src/utils/formUtils.tsx:7-14 | an input without digits gives "0" |
| FormUtils.LeadingZero | src/utils/formUtils.tsx:50-52 | the result never starts with a dot and keeps digits-and-dots and a single dot |
| FormUtils.NormalizeFloatNumberInput | src/utils/formUtils.tsx:33-67 | the result holds only digits and dots |
| FormUtils.NormalizeFloatNumberInputWithoutLimits | src/utils/formUtils.tsx:41-52 | without limits, extra dots fold into the first and a leading dot gets a "0" in front |
| FormUtils.NormalizeFloatNumberInputTruncatesFraction | src/utils/formUtils.tsx:62-64 | a fraction longer than `maxLengthAfterDot` is cut to that length |
| FormUtils.IsACnpj | src/utils/formUtils.tsx:69-72 | an accepted text has 18 or 19 characters, 14 or 15 digits, and starts with two digits |
| NumberUtils.FirstNonDigit | src/utils/numberUtils.ts:2 | the position of the first non-digit with only digits before it, or -1 for an all-digit text |
| NumberUtils.ContainsOnlyDigits | src/utils/numberUtils.ts:1-3 | true iff every character is a digit, so "" qualifies |
| NumberUtils.IsAFloatNumber | src/utils/numberUtils.ts:5-8 | true iff the text splits into one or more digits, then nothing or "." and one or two digits |
| NumberUtils.FloatNumberCharacters | src/utils/numberUtils.ts:5-8 | a text that passes `isAFloatNumber` holds only digits and dots |
| NumberUtils.IsNotZero | src/utils/numberUtils.ts:10-12 | false exactly for the number 0 and the string "0" |
| NumberUtils.IsNotZeroIsTextual | src/utils/numberUtils.ts:10-12 | "00", "0.0" and "" are not zero; 0 and "0" are |
| NumberUtils.KeepFirstDot | src/utils/numberUtils.ts:105-108 | at most one dot remains, iff there was one, and digits-and-dots stay so |
| NumberUtils.FoldExtraDots | src/utils/numberUtils.ts:105-108 | the split and join of the parts after the first dot; `FoldExtraDotsKeepsFirstDot` states that only the first dot survives |
| NumberUtils.FoldExtraDotsKeepsFirstDot | src/utils/numberUtils.ts:105-108 | joining the parts after the first dot keeps exactly the first dot |
| NumberUtils.LimitBeforeDot | src/utils/numberUtils.ts:111-116 | digits-and-dots stay so, and without a limit the text is unchanged |
| NumberUtils.LimitAfterDot | src/utils/numberUtils.ts:118-120 | digits-and-dots stay so, and without a limit or a second part the text is unchanged |
| NumberUtils.CleanNumber | src/utils/numberUtils.ts:102 | only digits and dots remain |
| NumberUtils.NormalizeNumber | src/utils/numberUtils.ts:96-123 | the result holds only digits and dots |
| NumberUtils.NormalizeNumberWithoutLimits | src/utils/numberUtils.ts:102-108 | without limits only the first dot is kept and a leading dot stays |
| NumberUtils.NormalizeNumberTruncatesFraction | src/utils/numberUtils.ts:118-120 | a fraction longer than `maxLengthAfterDot` is cut to that length |
| NumberUtils.NormalizeNumberDropsDigitsPastIntegerLimit | src/utils/numberUtils.ts:111-116 | for digits over the integer limit, an after-dot limit not above it drops everything past the integer part |
| NumberUtils.ToIntOr0 | src/utils/numberUtils.ts:145-153 | the `parseInt` value, or 0 when it is NaN |
| NumberUtils.ToIntOr0OfDigits | src/utils/numberUtils.ts:145-153 | a digit string gives its decimal value |
| NumberUtils.ToIntOr0OfIntToString | src/utils/numberUtils.ts:145-153 | it reads back any integer written by `String(n)` strictly between -1e21 and 1e21; from 1e21 on in magnitude it reads only the signed leading digit of the exponent form |
| ZodUtils.LengthMessageNumber | src/utils/zodUtils.ts:12-28 | a length message starts with the prefix, and ends in the plural "caracteres." iff the bound is above one |
| ZodUtils.UnitNumber | src/utils/zodUtils.ts:15-17 | the unit word ends in "s." iff the bound is above one |
| ZodUtils.StringIssues | src/utils/zodUtils.ts:3-31 | no message iff the length is within both bounds; the minimum's message comes first and the maximum's last |
| ZodUtils.Accepts | src/utils/zodUtils.ts:3-96 | which strings each schema accepts; the `...AcceptsMaskImages` lemmas characterise it against the masks |
| ZodUtils.Issues | src/utils/zodUtils.ts:37-96 | a schema reports nothing iff it accepts, and a refinement reports exactly one message otherwise |
| ZodUtils.PatternsAreMasks | src/utils/zodUtils.ts:44-90 | the patterns are the masks `maskUtils` writes, and each ends in a digit |
| ZodUtils.CpfAcceptsMaskImages | src/utils/zodUtils.ts:53-59 | `zCpf` accepts exactly the CPF mask filled with eleven digits |
| ZodUtils.CepAcceptsMaskImages | src/utils/zodUtils.ts:61-65 | `zCep` accepts exactly the CEP mask filled with eight digits |
| ZodUtils.FixedPhoneAcceptsMaskImages | src/utils/zodUtils.ts:78-82 | `zFixedPhoneNumber` accepts exactly the fixed-phone mask filled with ten digits |
| ZodUtils.CellPhoneAcceptsMaskImages | src/utils/zodUtils.ts:84-96 | `zOptionalCellPhoneNumber` accepts any text without digits, and otherwise exactly the cell-phone mask filled with eleven digits |
| ZodUtils.DigitsTrimEmptyIff | src/utils/zodUtils.ts:88-90 | the digits of a text trim to "" iff it has none |
| ZodUtils.CnpjAcceptsIsACnpj | src/utils/zodUtils.ts:37-51 | `zCnpj` and `isACnpj` accept the same strings, all of length 18 or 19 |
| ZodUtils.CnpjAcceptsMaskImages | src/utils/zodUtils.ts:37-51 | `zCnpj` accepts exactly the CNPJ masks filled with 14 or 15 digits |
| ZodUtils.UfAcceptsTwo | src/utils/zodUtils.ts:71-76 | `zUf` accepts exactly two characters and otherwise reports its one message |
| BarcodeUtils.Intermediates | src/utils/barcodeUtils.ts:22-26 | one intermediate code per product, in order |
| BarcodeUtils.EarliestLongest | src/utils/barcodeUtils.ts:25-32 | no code is longer, and every earlier code is strictly shorter |
| BarcodeUtils.FindLongestCodBarra | src/utils/barcodeUtils.ts:17-35 | "" for null or an empty list; otherwise the first of the longest intermediate codes |
| BarcodeUtils.Ean13CheckDigit | src/utils/barcodeUtils.ts:38-45 | on twelve leading digits the result is one digit completing the weighted sum to a multiple of ten; otherwise "NaN" |
| BarcodeUtils.Ean13CheckDigitUnique | src/utils/barcodeUtils.ts:38-45 | the check digit is the only digit completing the sum, and the thirteen digits have a weighted sum divisible by ten |
| BarcodeUtils.CalculateEan13CheckDigit | src/utils/barcodeUtils.ts:38-45 | the summing loop computes `Ean13CheckDigit` |
| BarcodeUtils.BarCodes | src/utils/barcodeUtils.ts:51-57 | one bar code per product, in order, each the three code fields written one after the other |
| BarcodeUtils.IndexOf | src/utils/barcodeUtils.ts:60 | -1 iff absent; otherwise the position of the code with no earlier occurrence |
| BarcodeUtils.RepeatedAt | src/utils/barcodeUtils.ts:59-61 | a code is kept by the duplicates filter iff it occurred earlier |
| BarcodeUtils.DuplicatesUpToIsRepeats | src/utils/barcodeUtils.ts:59-61 | the `indexOf` filter keeps the same codes as the membership filter |
| BarcodeUtils.RepeatsUpToCount | src/utils/barcodeUtils.ts:59-61 | each code is kept one time fewer than it occurs |
| BarcodeUtils.DuplicatesUpToNonEmpty | src/utils/barcodeUtils.ts:59-61 | some code is kept iff two positions hold the same code |
| BarcodeUtils.Duplicates | src/utils/barcodeUtils.ts:59-61 | the `indexOf` filter; `DuplicatesLaws` states which codes it keeps and how often |
| BarcodeUtils.DuplicatesLaws | src/utils/barcodeUtils.ts:59-66 | each repeated code appears once per occurrence after its first; `duplicates` is non-empty iff a code repeats |
| BarcodeUtils.InvalidBarCodes | src/utils/barcodeUtils.ts:63 | every kept code is shorter than 13, and nothing is kept iff every code has at least 13 characters |
| BarcodeUtils.InvalidBarCodesAppend | src/utils/barcodeUtils.ts:63 | filtering a concatenation concatenates the filtered parts, so the kept codes stay in input order |
| BarcodeUtils.InvalidBarCodesCount | src/utils/barcodeUtils.ts:63 | every short code is kept as often as it occurs, and no other code |
| BarcodeUtils.ValidateAndCheckBarCodes | src/utils/barcodeUtils.ts:48-71 | the duplicate flag holds iff a bar code repeats, the invalid flag iff one is shorter than 13; both lists are returned |
| Auth.LowerMessage | src/contexts/auth.tsx:109 | `message ? message.toLowerCase() : ""`; `ExpiredMessageIgnoresCase` states what it makes of the expiry phrase |
| Auth.ExpiredMessageIgnoresCase | src/contexts/auth.tsx:109-111 | "token has expired" in any mix of cases counts as expired |
| Auth.Permissions | src/contexts/auth.tsx:145-166 | the record the loop builds; `PermissionsLaws` states its keys and values |
| Auth.PermissionsLaws | src/contexts/auth.tsx:145-166 | the record's keys are exactly the requested names, each holding the verdict of its last check |
| Auth.FlagSetter.constructor | src/contexts/auth.tsx:141 | a setter starts with no writes |
| Auth.AuthProvider.constructor | src/contexts/auth.tsx:45-52 | no token, not logged in, not verifying, loading count 0, waiting for the fingerprint |
| Auth.AuthProvider.ShowsLoading | src/contexts/auth.tsx:248 | the loading screen shows while the page loads or the fingerprint is awaited; `OnLoadingCountChanged` and `OnFingerprintChanged` say when each ends |
| Auth.AuthProvider.BeginVerifying | src/contexts/auth.tsx:58-90 | the verifying flag is raised and nothing else changes |
| Auth.AuthProvider.SettleLogin | src/contexts/auth.tsx:69-85 | true iff `success && token`, which stores the token in memory and in `localStorage`; otherwise nothing is stored. Verifying is cleared on every path |
| Auth.AuthProvider.LogoutUserWithExpiredLoginMessage | src/contexts/auth.tsx:172-179 | shows the expiry warning with its toast id, removes the stored token, and clears the token and the logged-in flag |
| Auth.AuthProvider.SettleVerify | src/contexts/auth.tsx:103-132 | the login time is always set, to `remainingTime` or 0. An expired token logs out; an inactive user loses the stored token. Logged-in becomes `success && user_id`, even after that logout. `tokenHasExpired` is cleared only on success, and a failed request shows an error and changes no session state |
| Auth.AuthProvider.CheckResourcesPermission | src/contexts/auth.tsx:136-170 | the loop builds `Permissions(names, responses)`; the caller's flag is written true first and false last |
| Auth.AuthProvider.OnTokenOrFingerprintChanged | src/contexts/auth.tsx:181-209 | a stored token and a fingerprint start a verification: the token is read back, the loading count raised, verifying set. Otherwise the session is logged out with time 0, and with neither, verifying is cleared |
| Auth.AuthProvider.SettleStoredTokenVerification | src/contexts/auth.tsx:184-200 | the reply leaves the session exactly as `SettleVerify` does (its whole state, through the shared predicate `VerifySettled`); then the loading count drops back and a visitor on "/login" is sent to "/usuario" |
| Auth.AuthProvider.OnTokenHasExpiredChanged | src/contexts/auth.tsx:211-217 | when the token expired, the page is loaded and there is a token or a login, the expired-logout runs and both warnings are dismissed; otherwise nothing changes. The verifying flag, loading count, fingerprint wait and navigation log never change |
| Auth.AuthProvider.OnLoadingCountChanged | src/contexts/auth.tsx:219-224 | the page stops loading once the count is 0 and never starts loading here |
| Auth.AuthProvider.OnFingerprintChanged | src/contexts/auth.tsx:227-231 | a known fingerprint ends the wait for it |
| UserPrivate.GuardView | src/routes/UserPrivate.tsx:27-35 | loading iff verifying; children iff logged in and not verifying; nothing otherwise |
| UserPrivate.RedirectMatchesView | src/routes/UserPrivate.tsx:21-35 | a redirect happens iff the guard renders nothing and the fingerprint is known |
| UserPrivate.OnLoginStateChanged | src/routes/UserPrivate.tsx:21-25 | "/login" is navigated to iff not logged in, not verifying and not getting the fingerprint |
| GlobalData.VisitedPages | src/contexts/globalData.tsx:73-84 | a remembered navigation makes the list the new path and the previous latest page; other navigations leave it unchanged |
| GlobalData.VisitedPagesHistory | src/contexts/globalData.tsx:73-84 | after remembered navigations to `a` then `b`, with other navigations between, the list is `[b, a]` |
| GlobalData.SkipAllKeeps | src/contexts/globalData.tsx:73-77 | not-found, access-denied and "default"-key navigations leave the list as it was |
| GlobalData.GlobalState.constructor | src/contexts/globalData.tsx:34-51 | page loading, not expired, login time 0, active link "/", no visited pages |
| GlobalData.GlobalState.OnPathnameChanged | src/contexts/globalData.tsx:67-89 | the active link follows the path and the visited pages become `VisitedPages` |
| LoginTimer.TickOf | src/components/others/LoginTimer/index.tsx:71-77 | a tick never leaves a negative time |
| LoginTimer.TicksCountDown | src/components/others/LoginTimer/index.tsx:71-77 | from `t`, `n` ticks leave `t - n` or 0, and 0 exactly from `t` ticks on |
| LoginTimer.Evaluate | src/components/others/LoginTimer/index.tsx:39-68 | the evaluation effect as one step; `EvaluateExpiry` and `EvaluateWarnings` state what it does |
| LoginTimer.EvaluateExpiry | src/components/others/LoginTimer/index.tsx:39-48 | nothing happens while loading or without a login time; otherwise the login expires iff no time is left, with no toast |
| LoginTimer.EvaluateWarnings | src/components/others/LoginTimer/index.tsx:50-67 | the five-minute warning shows iff under 300 seconds remain and it was not shown, after dismissing the ten-minute one. The ten-minute warning shows iff strictly between 300 and 600 remain and it was not shown. Neither shows at exactly 300, and each shows once |
| LoginTimer.Timer.constructor | src/components/others/LoginTimer/index.tsx:14-16 | no time left and no warning given |
| LoginTimer.Timer.OnUserLoginTimeChanged | src/components/others/LoginTimer/index.tsx:18-29 | the countdown restarts from the new login time with both warnings re-armed |
| LoginTimer.Timer.HandleTimeUpdate | src/components/others/LoginTimer/index.tsx:31-82 | the time ticks down; the ten-minute flag is set from the values the interval captured at the first render |
| LoginTimer.Timer.OnTimeLeftOrPageLoadingChanged | src/components/others/LoginTimer/index.tsx:39-68 | flags, toasts, expiry and login time follow `Evaluate` |
| LoginTimer.TickSilencesTenMinuteWarning | src/components/others/LoginTimer/index.tsx:31-81 | after any tick the ten-minute flag is set, so the effect that follows never shows the ten-minute warning |
| LoginTimer.JsRem | src/components/others/LoginTimer/index.tsx:85-87 | JavaScript `%`: the remainder takes the sign of the dividend |
| LoginTimer.DurationOf | src/components/others/LoginTimer/index.tsx:84-87 | days, hours, minutes and seconds of the time left; `DurationDecomposes` states how they add up |
| LoginTimer.DurationDecomposes | src/components/others/LoginTimer/index.tsx:84-87 | for a non-negative time, days, hours, minutes and seconds add back up to it, with hours < 24 and minutes, seconds < 60; for a negative time no unit is positive |
| LoginTimer.TimerText | src/components/others/LoginTimer/index.tsx:89-104 | the unit strings written one after the other; `TimerTextEmptyIff` states when it is empty |
| LoginTimer.Render | src/components/others/LoginTimer/index.tsx:106-108 | the timer is rendered only while time is left; `TimerTextEmptyIff` states that it then shows a unit |
| LoginTimer.TimerTextEmptyIff | src/components/others/LoginTimer/index.tsx:89-108 | the text is empty iff no time is left, so a rendered timer shows at least one unit |
| Api.ParseApiResponse | src/services/api.ts:204-230 | without additional parameters, the property of the response or []. With them, only the property inside `additionalParams`, and [] when either is missing |
| Api.ParseApiResponseLaws | src/services/api.ts:215-227 | a list stored where the flag says is read back, and with the flag other top-level properties do not matter |
| Api.FetchHandlers.constructor | src/services/api.ts:174 | the setters start with no writes |
| Api.FetchData | src/services/api.ts:163-202 | the fetching flag is raised first and lowered last, and once more before an HTTP error. A reply stores the parsed data; a failure raises the error flag and stores [] |
| Api.GroupCodeIsPrefix | src/services/api.ts:815 | the group code is `codprod.slice(0, 6)`, a prefix of the code, six characters long unless the code is shorter |
| Api.AppearsBeforeInPrefix | src/services/api.ts:813-821 | what appears early in a prefix appears early in the list |
| Api.GroupCodesDistinct | src/services/api.ts:813-821 | the group codes are distinct |
| Api.GroupCodesCover | src/services/api.ts:813-821 | the group codes are exactly the products' group codes |
| Api.GroupCodesOrder | src/services/api.ts:813-821 | the group codes are in order of first appearance |
| Api.GroupCodeOrderAt | src/services/api.ts:813-821 | every product carrying a later code comes after a product carrying an earlier one |
| Api.GroupCodes | src/services/api.ts:813-821 | the `reduce` result; `GroupCodesDistinct`, `GroupCodesCover` and `GroupCodesOrder` state what it holds |
| Api.CollectGroupCodes | src/services/api.ts:813-821 | the `reduce` pushing onto its accumulator computes `GroupCodes` |
| Api.WithPrefix | src/services/api.ts:825-827 | every product whose code starts with the group code is kept as often as it occurs, and no other |
| Api.WithPrefixAppend | src/services/api.ts:825-827 | filtering a concatenation concatenates the filtered parts, so each group keeps the products in list order |
| Api.GroupProducts | src/services/api.ts:823-834 | one group per code, in code order, each holding the products with that prefix |
| Api.WithPrefixMembership | src/services/api.ts:825-827 | a product is in a group iff it is a product whose code starts with the group code |
| Api.SixCharacterPrefix | src/services/api.ts:815-826 | a six-character prefix of a code is its group code |
| Api.InOwnGroup | src/services/api.ts:813-834 | every product sits in the group for its own group code |
| Api.OnlyOwnGroup | src/services/api.ts:815-826 | with codes of six or more characters, a group code that begins a product's code is that product's group code |
| Api.InGroupHasOwnCode | src/services/api.ts:813-834 | with codes of six or more characters, a group that holds a product has that product's group code |
| Api.EachProductInOneGroup | src/services/api.ts:813-834 | with codes of six or more characters, each product lands in exactly one group |
| Api.ShortCodeSharesProduct | src/services/api.ts:813-834 | a code shorter than six characters that begins another code puts that other product in two groups |
| Api.ProductsOutcome | src/services/api.ts:800-837 | a filtered reply shows its filtered products (none when absent), otherwise the full list, grouped. Without the flag or the list the `reduce` throws |
| Api.NoneBelowGrown | src/services/api.ts:475-479 | a lower bound on names carries over to the same colours plus one at or above it |
| Api.AtMostHeadSorted | src/services/api.ts:475-479 | a colour not above the head of a sorted list is not above any of it |
| Api.StrLessAsymmetric | src/services/api.ts:476-477 | string `<` never holds both ways |
| Api.InsertByCor | src/services/api.ts:475-479 | inserting into a sorted list keeps it sorted and adds exactly that colour |
| Api.InsertByCorStable | src/services/api.ts:475-479 | the inserted colour goes in front of the colours of its own name already in the list |
| Api.SortByCor | src/services/api.ts:475-479 | the result is sorted by `cor` under string `<` and is a permutation of the input |
| Api.SortByCorStable | src/services/api.ts:475-479 | the sort is stable: for every name, the colours with that name keep their input order, as the comparator returning 0 and the stable `Array.prototype.sort` give |
| Api.SortByCorKeepsTies | src/services/api.ts:475-479 | stability for every name at once |
| Api.ColorsOutcome | src/services/api.ts:471-484 | a colour list is returned sorted, with the same colours and with same-name colours in input order; without one the sort throws |
| Api.SortedHeadsAgree | src/services/api.ts:475-479 | two sorted arrangements of the same colours with distinct names start alike |
| Api.MultisetTails | src/services/api.ts:475-479 | removing equal heads keeps the same colours |
| Api.SortedByCorUnique | src/services/api.ts:475-479 | with distinct names there is only one sorted arrangement, so the sort's result is determined |
| Api.FilteredClients | src/services/api.ts:266 | the filtered clients when the reply says it filtered, the full list otherwise, a missing list being [] |
| Api.ClientsChoiceMatchesProducts | src/services/api.ts:266 | `getClients` shows the list `getProducts` shows for the same reply; they differ only when the reply did not filter and has no full list, where `getProducts` fails and `getClients` shows [] |
| DataUtils.DifferentValues | src/utils/dataUtils.ts:1-15 | the keys are among the data's, and each kept value is copied unchanged and is truthy |
| DataUtils.FilterDifferentValues | src/utils/dataUtils.ts:1-15 | the `for ... in` loop computes `DifferentValues` |
| DataUtils.DifferentValuesLaws | src/utils/dataUtils.ts:10-12 | a truthy value that reads differently is kept, and an unchanged or falsy one is not. Filtering against itself keeps nothing, and filtering twice is filtering once |
| StringUtils.ToUpperAscii | src/utils/stringUtils.ts:15 | lower-case ASCII letters go to upper case, 32 code points down; everything else is kept |
| StringUtils.CapitalizeFirstLetter | src/utils/stringUtils.ts:13-22 | the length is kept, the first character is upper-cased and the rest is the input's |
| StringUtils.CapitalizeFirstLetterLaws | src/utils/stringUtils.ts:13-22 | capitalising is idempotent, gives "" iff the input is "", never leaves a lower-case first letter and changes nothing after the first character |
| StringUtils.CapitalizedLowersBack | src/utils/stringUtils.ts:13-22 | a text starting with a lower-case letter differs from its capitalised form only in case |
| StringUtils.IsEmpty | src/utils/stringUtils.ts:24-26 | `str.trim().length === 0`; `IsEmptyIffWhiteSpace` states when it holds |
| StringUtils.IsEmptyIffWhiteSpace | src/utils/stringUtils.ts:24-26 | `isEmpty` holds iff the text is all white space, and then it has no digit |
| JsText.Trim | src/utils/stringUtils.ts:25 | `trim` removes white space at both ends only |
| JsText.TrimEmptyIff | src/utils/stringUtils.ts:25 | a text trims to "" iff it is all white space |
| JsText.KeepDigits | src/utils/maskUtils.ts:106 | only digits remain |
| JsText.KeepDigitsEmptyIff | src/utils/maskUtils.ts:106 | nothing remains iff there is no digit |
| JsText.KeepDigitsTrim | src/utils/formUtils.tsx:7 | trimming first does not change the digits kept |
| JsText.KeepDigitsKeepsDigits | src/utils/maskUtils.ts:106 | every digit is kept as often as it occurs |
| JsText.Slice | src/utils/formUtils.tsx:11 | `slice` with clamped and negative indices; a slice of digits is digits |
| JsText.SliceFromZeroIsPrefix | src/utils/formUtils.tsx:27 | a slice from 0 is a prefix |
| JsText.IndexOfChar | src/utils/numberUtils.ts:105 | -1 iff absent, otherwise the first position |
| JsText.SplitJoin | src/utils/maskUtils.ts:64-69 | joining a split with its separator gives the text back |
| JsText.ConcatSplitRemovesDots | src/utils/numberUtils.ts:107 | joining the parts of a split on "." with "" removes every dot |
| JsText.MatchedDigits | src/utils/formUtils.tsx:70 | a text of a shape without digit literals holds one digit per slot |
| JsText.IntToString | src/utils/maskUtils.ts:168 | `String(n)` starts with "-" iff n is negative, else with a digit. Strictly between -1e21 and 1e21 the rest is the digit string of the magnitude |
| JsText.DecimalDigits | src/utils/formUtils.tsx:14 | the decimal digits of a natural number are a non-empty digit string with no leading zero and that value |
| JsText.ExponentNotation | src/utils/formUtils.tsx:14 | from 1e21 on, `String(n)` starts with the leading digit of n followed by "." or "e", and holds an "e" |
| JsText.NatToString | src/utils/formUtils.tsx:14 | `String(n)` of a natural number starts with a digit; below 1e21 it is the plain digit string of n |
| JsText.ParseInt | src/utils/formUtils.tsx:14 | `parseInt` with leading white space, a sign and a `0x` prefix; `ParseIntOfDigits` and `ParseIntOfIntToString` state what it reads |
| JsText.ParseIntOfDigits | src/utils/formUtils.tsx:14 | `parseInt` reads a digit string as its value, and "" as NaN |
| JsText.ParseIntOfIntToString | src/utils/numberUtils.ts:146 | `parseInt(String(n))` is `n` strictly between -1e21 and 1e21; beyond that it is the signed leading digit of n, because `parseInt` stops at the "." or "e" of the exponent form |
| JsText.ToLowerAscii | src/contexts/auth.tsx:109 | ASCII capitals are lowered; every other character is kept |
| JsText.StrLessIrreflexive | src/services/api.ts:476-477 | no string sorts before itself |
| JsText.StrLessTransitive | src/services/api.ts:476-477 | string `<` is transitive |
| JsText.StrLessTotal | src/services/api.ts:476-477 | distinct strings are ordered one way or the other |

## Left out

- The network. Every `fetch`, `response.json()` and URL is replaced by the reply it produces, given as a parameter (`LoginResponse`, `VerifyResponse`, `PermissionResponse`, `FetchOutcome`, the product, colour and client lists). `getUserAuthToken` and `verifyUserLogin` are modelled by their synchronous start (`BeginVerifying`) and their settling (`SettleLogin`, `SettleVerify`).
- Concurrency and React scheduling. Each effect or callback runs as one step when the caller says its dependencies changed. Overlapping verifications, batched state updates and effect cleanup are not modelled. `UserPrivate`'s effect lists `userIsLoggedIn` and `isVerifyingUserLogin` but reads `isGettingFingerprint` too; when it runs is left to the caller.
- The fingerprint is an opaque string argument; the fingerprinting library is not part of this model.
- `localStorage` holds the parsed value, so the `JSON.stringify`/`JSON.parse` round trip of the stored token is assumed to be the identity.
- Floating point.
  - The `parseFloat(currentValue) >= 100` test in `applyMaskToField` is the boolean argument `currentAtLeastHundred`.
  - The `parseFloat(maskedValue) > maxValue` test in `MaskedInput` is the boolean argument `aboveMaxValue`.
  - Numbers in `JsValue` are integers. `parseInt` results above 2^53 are not rounded to a double, so `NormalizeIntegerInput` keeps every digit of a long input below 1e21 where JavaScript would print a rounded value; from 1e21 up to 2^1024 − 2^970 both print the exponent form, and from there on both give "Infinity" (`InfinityFrom`). `ToIntOr0` returns the integer itself where JavaScript's `parseInt` returns `Infinity`.
- JsText.IntToString: keeps every significant digit of the integer. `String` prints the shortest decimal that reads back as the same double, so for magnitudes above 2^53 the digits after the leading one can differ; the leading digit, the sign and the switch to exponent form at 1e21 agree.
  - `formatAsPercentage`, `formatAsCurrency`, `formatAsAmount`, `toFloat`, `toFloatOr0`, `toInt`, `isNumberGreaterThanZero` and `handleIncrementDecrementInput` are not modelled.
- StringUtils.CapitalizeFirstLetter: upper-cases ASCII letters only. `toUpperCase` also maps other scripts, and can lengthen a string (for example "ß" becomes "SS").
- Auth.LowerMessage: lower-cases ASCII letters only. A non-ASCII character that `toLowerCase` maps to an ASCII letter (U+212A KELVIN SIGN becomes "k") is not lowered, so a message such as "TO\u212AEN HAS EXPIRED" logs out in JavaScript but not in the model.
- `removeAccents`, `normalizeAndLowercase` and `toLowercase` are not modelled: they rely on Unicode normalisation and locale casing.
- Strings are sequences of Unicode scalar values, not UTF-16 code units. Lengths and string `<` differ from JavaScript only for characters outside the Basic Multilingual Plane.
- The regular expressions are modelled as fixed character shapes. `zEmail` (zod's e-mail check) and `zOptionalString` have no logic of their own here and are not modelled.
- `remainingTime` in a verify reply is an optional integer. A non-numeric value, which JavaScript would store as is, is not modelled.
- A truthy `additionalParams` that is not an object (a number, a string) is read as having no properties, where JavaScript's `in` would throw for a primitive.
- Api.FetchData: a `parseData` callback that throws is not modelled; it is a total function of the reply.
- Api.SortByCor: is an insertion sort, not the engine's own algorithm. It is proved sorted, a permutation and stable (`SortByCorStable`), which are the properties `Array.prototype.sort` promises; the comparison count and the order in which the comparator is called are not modelled.
- `getProducts`, `getColors` and `getClients` are modelled by the outcome functions `ProductsOutcome`, `ColorsOutcome` and `FilteredClients`. Their request building, loading flags and error toasts follow `FetchData`'s pattern and are not repeated. The other API calls (`getRepresentatives`, `deleteClient`, and so on) are network glue and are not modelled.
- BarcodeUtils: the product fields are strings. A null or undefined `codigoIntermediario` (read as "" by `?? ""`) and the template-literal rendering of missing fields in bar codes are not modelled.
- `applyInvalidCodBarStyling`, `applyInvalidVariationTabInputsStyling`, the `document.querySelector` write in `MaskedInput` and the `document.body` style reset in `GlobalDataProvider` are not modelled: they manipulate the DOM.
- MaskFields: requires every masked field to hold a string, null, undefined or a number `maskFields` can process. A non-negative number below 1e21 renders as plain digits and passes `isAFloatNumber`, so `removeMask` calls `replace` on a number and throws (`MaskableNumberIff`); the model does not capture that exception. A number from 1e21 on is masked like a negative one: its exponent form fails `isAFloatNumber`. Booleans, arrays and objects lie outside the `string | number` type of the record and are not modelled in masked fields.
- Auth.AuthProvider.SettleVerify: takes the reply's `message` to be a string or absent. A truthy non-string `message` makes `toLowerCase` throw after the login time is written; the `catch` then shows "Erro ao buscar os dados!" and resolves false. That path is not modelled.
- Property names inherited from `Object.prototype` (such as "constructor") are not modelled as present in `maskMap` or in a response object.
