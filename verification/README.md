# A verified model of the Sealos storage manager

This Dafny project models the parts of the storage manager that carry its hardest rules and proves them for all inputs
and all runs. It has four parts.

1. **Quantities** (`web/src/utils/quantities/quantity.ts`): the exact decimal and binary quantities of the web client.
   The specification domain is integers counted in nanos: an amount `v * 10^s` stands for `v * 10^(s+9)`. The scanner, the
   suffix tables, rounding up to nano, saturation, both canonical printers, the display printer and the arithmetic are
   modelled with the code's own branches; each loop of the source is a method proved equal to a function, and the laws are
   proved about the functions. Files: `IntegerMath`, `DecimalText`, `Amounts`, `QuantityScanner`, `Quantities`,
   `CanonicalPrinting`, `QuantityArithmetic`, `RationalText`, `QuantityDisplay`, `ExactDisplay`, `DisplayedUnits`,
   `RoundedDisplay`; `QuantityTexts` and `PrintedTexts` say character by character what a text is worth and what is printed.
2. **The session store** (`internal/state`): `Cache` holds the class `LruCache` (a map and an order, updated in place) and
   its partner, a plain recency list. `Store` holds the class `Store` (five caches and two index maps); every method is
   proved to take the store's value to `StoreModel.Step` of its operation and to return what that operation reads. What each
   call leaves in each table is spelled out in `StoreEffects`; the invariants over every run of calls are in
   `StoreInvariants`, `TokenIndex`, `ViewerIndex`, `PvcEntries`, `PvcIndex` and `AuthRuns`.
3. **Viewer and pod lifecycle** (`internal/session`): `World` is the Kubernetes API and the clock, where any call may fail,
   before or after taking effect, as an arbitrary script decides. `PodLifecycle`, `Cleanup`, `ViewerLifecycle` and `Hooks`
   are the services over the store and the world; `PodService.Inv` is what every service call keeps: a consistent store,
   unique pod names and at most one live viewer pod per namespace, claim UID and runtime version. `World` and `LifecycleInvariants` hold the
   lemmas that make it an invariant of every step, including pods ageing and vanishing by themselves.
4. **Two transformations**: the flattening of a possibly cyclic folder tree to table rows (`FileTree`, `FileTreeLaws`,
   `FolderRows`), and the detection of references to persistent volume claims with the guard that decides their deletion
   (`GoText`, `PvcReferences`, `PvcDedupe`, `PvcGuard`, `PvcManifests`, `PvcDeletion`). `PvcManifests` says who refers to a
   claim in the fields of the manifests alone, and that detection finds exactly that.

Each service method and each store method is one atomic step. For the store that is its mutex
(`internal/state/store.go:14`); for the services it is an assumption, since they have no lock of their own. Ids made from
random bytes are parameters that are required to be fresh. Maps of the source are walked in an arbitrary order.

## Findings

Places where the code does something a reader of it or of its comments may not expect, each proved by the member named:

- The text of a BinarySI quantity is not stable: 1.953125Ki prints `2000`, which reads back as DecimalSI and prints `2k`.
  `TextIsStableExactly` says for which quantities the text survives; the number always does.
- `digits: Infinity` is documented as full precision (`quantity.ts:16-21`), but the long division stops after 256 digits.
  Whatever is displayed with unlimited digits reads back exactly, unless the format is DecimalExponent and the forced
  exponent is more than 256 above the quantity's own scale; every other unit comes from a table and needs at most 69
  fraction digits (`UnlimitedDisplayIsExact`, `TableRoundTrip`, and `OneIsCutShort` for an input).
- A forced scale of 10, 20, .., 60 is always taken as a power of two, and is an error with an explicit decimal format,
  although the comments (`quantity.ts:86-89` and 910-913) say that the format disambiguates (`DisplayOutcome`).
- `roundUp` can report `exact: false` at the saturation bound although the quantity did not change (`RoundUpAtTheCap`).
- The whitespace guard of `parse` is redundant (`WhitespaceGuardIsRedundant`), and texts without a digit such as `+`, `.`
  and `Ki` parse as zero (`DigitlessTextsAreZero`, `PlusPointAndSuffixAreZero`).
- Deleting a pod session drops the PVC index key even when it leads to a newer session (`internal/state/store.go:109-111`,
  `NewerSessionIsLost`), and `EnsurePodSession` then replaces that session's pod. `LookupIsExact` says over every run when a
  stored session is found: its key was kept since its last put, where `Drops` lists the calls that drop a key.
- A session id that was evicted and put again for another claim is still found under the old one (`StaleReputIsMisfound`), a
  viewer id put again under another pod is still listed under the old one (`StaleReputIsMislisted`), and two viewers sharing
  a token hash leave more index entries than the record cache has room for (`SharedHashOutgrowsTheCache`). Each index stays
  true over a run if and only if every put meets a condition on the state it is made in (`AgreesExactly`,
  `NeverStaleExactly`, `AlwaysOneToOneExactly`).
- In `ReconcileViewerPods` the keepalive annotation decides nothing: both branches of that check delete the pod
  (`internal/session/pod_reconcile.go:73-85`, `KeepaliveDecidesNothing`).
- One expired session in use whose pod vanished fails every cleanup run before the purge, however well the API works:
  patching the annotations of a missing pod is an error that the loop returns (`internal/session/cleanup.go:76-79`).
  `RunOnce` has the condition and `VanishedPodFailsTheRun` the input.
- A keepalive grace that is not positive lets the purge drop a session in use (`RefreshWithoutGraceIsPurged`).
- The ancestor set of the tree flattener never refuses an entry that the set of seen paths would not refuse too
  (`RowsWithoutAncestorGuard`). An opened folder with an empty path is not a block: it accepts the root, and the root
  accepts anything (`EmptyPathIsNoBlock`).
- A reference field holding a NUL can collide with another target's key, and one of the two is then lost
  (`NulFieldsCollide`, `CollidingTargetIsLost`). The delete guard does not depend on it: a claim with a reference never
  looks unreferenced (`DeletePVC`).
- A claim named with a signed number, such as `data-web--1`, counts as owned by the stateful set (`OrdinalsMatch`).

## Model

| member | source | states |
|---|---|---|
| Amounts.Pow10BigInt | web/src/utils/quantities/quantity.ts:104-121 | binary exponentiation computes the power of ten, and rejects negative exponents |
| Amounts.NormalizeDecimal | web/src/utils/quantities/quantity.ts:137-147 | the loop strips exactly the trailing zeros |
| Amounts.RoundToMinScaleNanos | web/src/utils/quantities/quantity.ts:149-158 | rounding up to nano is away from zero, and its flag says whether nothing was lost |
| Amounts.CapNanos | web/src/utils/quantities/quantity.ts:160-177 | saturation at 2^63-1 is clamping in nanos, and its flag says whether it changed the number |
| Amounts.ConstructedIsClampedRounding | web/src/utils/quantities/quantity.ts:179-188 | every construction gives a normal amount: the exact number rounded up to nano, then clamped |
| Amounts.NormalFormIsUnique | web/src/utils/quantities/quantity.ts:137-188 | numerically equal normal amounts are the same value at the same scale |
| Amounts.CompareIsNumeric | web/src/utils/quantities/quantity.ts:190-206 | comparing by aligning scales is the sign of the difference in nanos |
| Amounts.ScaleToIntIsCeiling | web/src/utils/quantities/quantity.ts:386-396 | scaling to an integer is one division rounded away from zero, with an exact flag that tells the truth; below nano it is exact |
| Amounts.LessThanOneInNanos | web/src/utils/quantities/quantity.ts:208-215 | the smaller-than-one test holds exactly for magnitudes strictly between 0 and 10^9 nanos |
| QuantityScanner.ParseQuantityString | web/src/utils/quantities/quantity.ts:406-508 | the scanner with its moving position computes the grammar's reading of the text, error or pieces |
| QuantityScanner.ScanAcceptsNumerals | web/src/utils/quantities/quantity.ts:406-508 | every text of the grammar is scanned into its own sign, digits and suffix |
| QuantityScanner.PiecesConcatenate | web/src/utils/quantities/quantity.ts:406-508 | the pieces of any input concatenate back to it |
| QuantityScanner.PiecesOfText | web/src/utils/quantities/quantity.ts:406-508 | cutting the text of a numeral gives that numeral back |
| QuantityScanner.WhitespaceGuardIsRedundant | web/src/utils/quantities/quantity.ts:757-767 | a text the whitespace guard rejects is rejected without it |
| Quantities.SuffixRoundTrip | web/src/utils/quantities/quantity.ts:219-332 | constructing a suffix and interpreting it gives base, exponent and format back over the whole table |
| Quantities.ParseMeaning | web/src/utils/quantities/quantity.ts:510-558 | a text of the grammar parses to the numeral times its suffix power, rounded up to nano and clamped, with its format |
| QuantityTexts.ParsedInTableUnit | web/src/utils/quantities/quantity.ts:219-259 | with each of the sixteen suffixes from n to Ei a text is its digits times that unit, given as a number of nanos, rounded away from zero to nano and clamped to 2^63-1; BinarySI below one is remembered as DecimalSI |
| QuantityTexts.ParsedWhole | web/src/utils/quantities/quantity.ts:757-794 | a printed whole number m with such a suffix parses to m times the unit, clamped |
| QuantityTexts.ParsedWithExponent | web/src/utils/quantities/quantity.ts:260-269 | after e or E the digits are a power of ten, negative after a minus sign and positive after a plus sign or none |
| QuantityTexts.AcceptedTexts | web/src/utils/quantities/quantity.ts:406-558 | the texts that parse are exactly sign, digits, point, digits and one of those suffixes or an exponent, with something there at all |
| QuantityTexts.GreedyCut | web/src/utils/quantities/quantity.ts:406-508 | the scanner leaves no sign, digit or first point to a later piece |
| QuantityTexts.SuffixShape | web/src/utils/quantities/quantity.ts:406-508 | what is left is scanned as a suffix if and only if it is letters of the twelve, then maybe a sign, then digits |
| Quantities.ParseOutcome | web/src/utils/quantities/quantity.ts:757-794 | parse succeeds if and only if the text is of the grammar with a known suffix, and otherwise gives the code of the first thing wrong |
| Quantities.DigitlessTextsAreZero | web/src/utils/quantities/quantity.ts:406-558 | a text of the grammar without a digit parses as zero |
| Quantities.PlusPointAndSuffixAreZero | web/src/utils/quantities/quantity.ts:757-794 | `+`, `.` and `Ki` parse as zero |
| CanonicalPrinting.AsCanonicalDecimal | web/src/utils/quantities/quantity.ts:347-361 | the loops that align to thousands compute the aligned mantissa and exponent |
| CanonicalPrinting.AsCanonicalBase1024 | web/src/utils/quantities/quantity.ts:363-383 | the loop that strips factors of 1024 computes the stripped mantissa and exponent |
| CanonicalPrinting.PrintedIsCanonical | web/src/utils/quantities/quantity.ts:1129-1171 | the exponent lands in the suffix table, the mantissa is not divisible by 1000 or 1024, and mantissa times unit is the quantity |
| PrintedTexts.CanonicalText | web/src/utils/quantities/quantity.ts:1129-1171 | the canonical text is an integer and a literal suffix of its family, exactly the quantity, and no larger suffix would do; BinarySI only for whole numbers from 1024 up |
| CanonicalPrinting.PrintThenParse | web/src/utils/quantities/quantity.ts:1129-1171 | parsing the canonical text of any normal quantity gives exactly its amount back |
| CanonicalPrinting.TextIsStableExactly | web/src/utils/quantities/quantity.ts:1129-1171 | printing, parsing and printing again gives the same text if and only if the quantity is not a BinarySI whole number that prints without suffix and reads otherwise |
| CanonicalPrinting.TextIsLostForTwoThousand | web/src/utils/quantities/quantity.ts:1129-1171 | 2000 bytes in BinarySI lose their text |
| QuantityArithmetic.ConstructorsClamp | web/src/utils/quantities/quantity.ts:829-868 | every constructor gives a normal quantity of the clamped exact number, in the format given, and BinarySI for a binary scale |
| QuantityArithmetic.CmpIsNumeric | web/src/utils/quantities/quantity.ts:1072-1079 | comparison is the order of nanos, and equality is equality of representation |
| QuantityArithmetic.NegNanos | web/src/utils/quantities/quantity.ts:1238-1242 | negation negates the number, keeps the format and undoes itself |
| QuantityArithmetic.AddNanos | web/src/utils/quantities/quantity.ts:1180-1198 | addition is clamped addition in nanos, and a zero operand leaves the format to the other |
| QuantityArithmetic.SubNanos | web/src/utils/quantities/quantity.ts:1205-1207 | subtraction is clamped subtraction in nanos |
| QuantityArithmetic.AddCommutes | web/src/utils/quantities/quantity.ts:1180-1198 | addition is commutative in amounts, saturation included |
| QuantityArithmetic.AddIsMonotone | web/src/utils/quantities/quantity.ts:1180-1198 | addition is monotone in its operand, saturation included |
| QuantityArithmetic.AddThenSub | web/src/utils/quantities/quantity.ts:1180-1207 | subtracting what was added gives the first operand back if and only if the sum did not saturate |
| QuantityArithmetic.MulNanos | web/src/utils/quantities/quantity.ts:1214-1235 | multiplication clamps, and exact holds if and only if the result is the true product |
| QuantityArithmetic.RoundUpNanos | web/src/utils/quantities/quantity.ts:1251-1268 | roundUp is the clamped multiple away from zero; what its exact flag means, at the cap too |
| QuantityArithmetic.RoundUpAtTheCap | web/src/utils/quantities/quantity.ts:1251-1268 | 2^63-1 rounded to tens is unchanged and reported inexact |
| QuantityArithmetic.RoundUpIsLeast | web/src/utils/quantities/quantity.ts:1251-1268 | roundUp gives the least-magnitude multiple at or beyond the quantity, or the cap, at every scale |
| QuantityArithmetic.RoundUpComposes | web/src/utils/quantities/quantity.ts:1251-1268 | rounding at s1 and then at s2 >= s1 is rounding at s2, saturated cases included |
| QuantityArithmetic.ScaledValueIsCeiling | web/src/utils/quantities/quantity.ts:1116-1119 | conversion to a decimal unit is one ceiling away from zero of the nanos |
| QuantityArithmetic.ScaledBinaryValueIsCeiling | web/src/utils/quantities/quantity.ts:1105-1108 | conversion to a binary unit is one ceiling away from zero of the nanos |
| QuantityArithmetic.ConversionsAreMonotone | web/src/utils/quantities/quantity.ts:1105-1119 | both conversions are monotone in the quantity |
| RationalText.FormatRationalDecimal | web/src/utils/quantities/quantity.ts:666-731 | the long-division and the rounding loops print what their specification prints, with its errors |
| RationalText.SplitIsOneShot | web/src/utils/quantities/quantity.ts:652-731 | splitting into integer and fraction, rounding the fraction and carrying equals rounding in one shot |
| RationalText.FiniteDenotes | web/src/utils/quantities/quantity.ts:695-731 | the digits printed with a limit spell the one-shot rounding, without trailing zeros |
| RationalText.ExactDenotes | web/src/utils/quantities/quantity.ts:676-693 | the digits printed without a limit never exceed the rational |
| RationalText.ExactWhenTerminating | web/src/utils/quantities/quantity.ts:676-693 | if 10^k makes the denominator divide for some k up to 256, the printed decimal is exactly the rational |
| QuantityDisplay.ChooseAutoDecimalExponent | web/src/utils/quantities/quantity.ts:603-612 | the loop chooses the largest table unit the quantity reaches, or the smallest unit |
| QuantityDisplay.ChooseAutoBinaryBits | web/src/utils/quantities/quantity.ts:614-623 | the loop chooses the largest power of 1024 the quantity reaches, or none |
| QuantityDisplay.BumpedIsOne | web/src/utils/quantities/quantity.ts:921-1040 | when rounding reaches the next unit, the quantity rounds to exactly one of it |
| QuantityDisplay.AutoDecimalDisplay | web/src/utils/quantities/quantity.ts:921-1040 | automatic decimal display prints a value within half of the last digit, in a table unit, with magnitude in [1, 1000) |
| QuantityDisplay.AutoBinaryDisplay | web/src/utils/quantities/quantity.ts:921-1040 | automatic binary display prints a value within half of the last digit, below 1024, and at least 1 when the quantity is |
| ExactDisplay.BinaryTerminates | web/src/utils/quantities/quantity.ts:635-645 | a binary mantissa terminates within bits + 9 digits, 69 for every table unit |
| ExactDisplay.TableRoundTrip | web/src/utils/quantities/quantity.ts:921-1040 | unlimited display in a table unit, automatic, clamped or forced, prints at most 69 fraction digits and parses back to the amount |
| ExactDisplay.UnlimitedDisplayIsExact | web/src/utils/quantities/quantity.ts:676-1040 | for every option with unlimited digits, whatever is displayed parses back to the amount if and only if it is not a forced exponent in DecimalExponent format more than 256 above the scale |
| ExactDisplay.OneIsCutShort | web/src/utils/quantities/quantity.ts:676-693 | 1 shown in units of 10^257 with all digits does not read back as 1 |
| ExactDisplay.DisplayOutcome | web/src/utils/quantities/quantity.ts:921-1040 | display fails exactly on digits out of range or a forced scale of the other family |
| RoundedDisplay.FiniteDisplay | web/src/utils/quantities/quantity.ts:921-1040 | with d digits the text is one rounding of the quantity in its unit, within half of the last digit, in every automatic, clamped or forced unit down to nano, with the suffix of that unit in the family the options choose |
| RoundedDisplay.BelowNanoIsExact | web/src/utils/quantities/quantity.ts:921-1040 | a forced exponent below nano loses nothing, whatever the digits |
| RoundedDisplay.RoundDisplay | web/src/utils/quantities/quantity.ts:921-1040 | with rounding the text is the quantity in its unit rounded once to an integer away from zero, in every unit, with the suffix of that unit in the family the options choose |
| RoundedDisplay.RoundedAutoRange | web/src/utils/quantities/quantity.ts:921-1040 | rounded automatic display prints an integer from 1 to 1000, or 1024 in binary |
| PrintedTexts.DefaultDisplay | web/src/utils/quantities/quantity.ts:921-1040 | without options a quantity is shown in its own family, in the largest unit it reaches or rounds up to, with at most two digits and within half of the second |
| PrintedTexts.UnlimitedTableText | web/src/utils/quantities/quantity.ts:921-1040 | unlimited display in a table unit is in the unit the options ask for, spelled with its literal suffix, and reads back exactly |
| PrintedTexts.UnlimitedForcedText | web/src/utils/quantities/quantity.ts:921-1040 | a forced exponent in exponent format is printed as that exponent |
| Cache.LookupMeans | internal/state/cache.go:60-72 | a key is found with its value as long as its expiry is zero or later than the present |
| Cache.RemainsMeans | internal/state/cache.go:60-108 | a get, a purge and a delete leave exactly the slots one would expect, in terms of that expiry |
| Cache.LruCache.constructor | internal/state/cache.go:21-30 | a new cache is empty and holds at least one entry |
| Cache.LruCache.Put | internal/state/cache.go:32-58 | put moves the key to the front and drops exactly the least recently touched slot beyond capacity, which it returns |
| Cache.LruCache.Get | internal/state/cache.go:60-72 | get returns a live value and moves it to the front, and deletes an expired one |
| Cache.LruCache.Delete | internal/state/cache.go:74-83 | delete drops that key only and returns its value |
| Cache.LruCache.PurgeExpired | internal/state/cache.go:85-96 | purge drops exactly the expired slots, keeps the order of the others, and returns each dropped key once |
| Cache.LruCache.Values | internal/state/cache.go:98-108 | values drops the expired slots and returns each live value |
| Cache.PutFacts | internal/state/cache.go:32-58 | after a put keys are distinct, the bound holds, and the slots are the new one and all others but the evicted |
| Cache.GetFacts | internal/state/cache.go:60-72 | after a get only an expired slot of that key is gone, and a miss means the key is not stored any more |
| Cache.SmallerCacheIsIncluded | internal/state/cache.go:32-108 | fed the same calls, a smaller cache holds a part of a larger one, with the same values in the same order |
| Cache.OrderIsRecency | internal/state/cache.go:32-108 | after any run the slots stand in the order in which their keys were last put or got |
| Cache.EvictsLeastRecentlyTouched | internal/state/cache.go:49-57 | the key a put evicts is the one whose last put or get is the oldest of the run |
| Store.Store.constructor | internal/state/store.go:31-41 | a new store is empty |
| Store.Store.PutPodSession | internal/state/store.go:43-56 | the call is its step: a moved session loses its old PVC key, then both caches are put |
| Store.Store.GetPodSession | internal/state/store.go:58-67 | the call is its step and returns the live session |
| Store.Store.GetPodSessionIncludingExpired | internal/state/store.go:69-78 | returns the stored session, expired or not, and changes nothing |
| Store.Store.ListPodSessions | internal/state/store.go:80-89 | purges expired sessions and returns each other one |
| Store.Store.ListExpiredPodSessions | internal/state/store.go:91-103 | returns each expired session once and changes nothing |
| Store.Store.DeletePodSession | internal/state/store.go:105-113 | the call is its step: the session, its PVC key and the viewers indexed under it go |
| Store.Store.FindPodSessionByPVC | internal/state/store.go:115-129 | the call is its step and returns the live session the live index entry leads to; a dangling entry is dropped |
| Store.Store.PutViewerSession | internal/state/store.go:131-143 | the call is its step: a moved viewer leaves its old pod and is indexed under the new one |
| Store.Store.GetViewerSession | internal/state/store.go:145-155 | the call is its step: a miss drops the viewer's token |
| Store.Store.DeleteViewerSession | internal/state/store.go:157-166 | the call is its step: the viewer, its index entry and its token go |
| Store.Store.ListViewerSessionsByPod | internal/state/store.go:168-190 | visiting the indexed ids once each, in any order, returns the live sessions and drops the others with their tokens |
| Store.Store.CreateAuthRequest | internal/state/store.go:192-199 | the call is its step: the request is stored with the secret |
| Store.Store.ConsumeAuthRequest | internal/state/store.go:201-215 | the call is its step: a live, unused request with the matching hash is returned and deleted |
| Store.Store.PutTokenRecord | internal/state/store.go:217-229 | the call is its step: the viewer's other token goes, and so do index entries of the evicted hash |
| Store.Store.GetTokenRecord | internal/state/store.go:231-249 | the call is its step and returns the viewer's own usable token for that pod |
| Store.Store.PurgeExpired | internal/state/store.go:251-276 | the call is its step over all five caches and both indexes, and reports exactly the entries purged |
| Store.Store.DeleteViewerByPod | internal/state/store.go:287-296 | the viewer leaves the pod's set, and an emptied set goes |
| Store.Store.DeleteTokenForViewer | internal/state/store.go:298-305 | the viewer's index entry and the record it leads to go |
| Store.Store.DeleteTokenIndexByHash | internal/state/store.go:307-313 | exactly the entries with that hash go |
| StoreEffects.SessionsStored | internal/state/store.go:43-276 | which pod sessions are stored after each call, by their keys and expiries |
| StoreEffects.ViewersStored | internal/state/store.go:131-276 | which viewer sessions are stored after each call |
| StoreEffects.ViewersListed | internal/state/store.go:105-296 | which viewers are listed under a pod after each call |
| StoreEffects.RequestsStored | internal/state/store.go:192-276 | which auth requests are stored after each call; a consume deletes exactly the live unused one with the hash |
| StoreEffects.TokensIndexed | internal/state/store.go:145-313 | under which hash each viewer is indexed after each call |
| StoreEffects.TokensStored | internal/state/store.go:145-313 | which token records are stored after each call |
| StoreModel.PvcKeyIsInjective | internal/state/store.go:315-317 | a namespace without a slash and a UID can be read back from the joined key |
| StoreInvariants.TraceOk | internal/state/store.go:43-313 | over any run every cache is within capacity with distinct keys, and each token record is indexed by its own viewer |
| TokenIndex.OneRecordPerViewer | internal/state/store.go:217-229 | over any run no viewer has two token records |
| TokenIndex.DepartedViewersLoseTheirTokens | internal/state/store.go:145-276 | after a delete, a failed get, a listing or a purge that finds a viewer gone, no record and no index entry of it is left |
| TokenIndex.PutOneToOneExactly | internal/state/store.go:217-229 | a put keeps index entries and records one to one if and only if no other viewer is indexed under its hash |
| TokenIndex.AlwaysOneToOneExactly | internal/state/store.go:217-313 | over a run they always are if and only if every put meets that |
| TokenIndex.IndexAndRecordsAreInBijection | internal/state/store.go:217-313 | then entries and records correspond one to one and both stay within capacity |
| TokenIndex.NoSharedHashSuffices | internal/state/store.go:217-229 | runs in which viewers never share a hash meet it |
| TokenIndex.SharedHashOutgrowsTheCache | internal/state/store.go:217-229 | with a shared hash the index outgrows the record cache |
| ViewerIndex.StoredViewersAreIndexed | internal/state/store.go:105-190 | over any run each stored viewer is indexed under its own pod, unless the pod was deleted since the viewer's last put |
| ViewerIndex.ListingIsComplete | internal/state/store.go:168-190 | for a pod never deleted a listing returns every live session a full scan would |
| ViewerIndex.OwnListingIsExact | internal/state/store.go:105-190 | a live session is listed under its pod if and only if the pod was not deleted since the session was last put |
| ViewerIndex.PutNoStaleExactly | internal/state/store.go:131-143 | a put leaves no stored viewer listed under another pod if and only if its id is stored or listed under no other pod |
| ViewerIndex.NeverStaleExactly | internal/state/store.go:105-190 | over a run no stored viewer ever is if and only if every put meets that |
| ViewerIndex.ListingIsExact | internal/state/store.go:168-190 | then, for a pod never deleted, a listing returns exactly the live sessions of the pod |
| ViewerIndex.NoStaleReputSuffices | internal/state/store.go:131-143 | runs in which no viewer id that fell out of the cache is put again under another pod meet it |
| ViewerIndex.StaleReputIsMislisted | internal/state/store.go:131-143 | the condition is needed: an evicted viewer put again under another pod is still listed under the old one |
| PvcEntries.EntryAfter | internal/state/store.go:43-129 | a call writes the entry of a key when it puts for it, removes it exactly when it drops it, and otherwise leaves it |
| PvcEntries.IndexHoldsLastPut | internal/state/store.go:43-129 | over any run the index has an entry for a key exactly while no call dropped it since its last put, and it leads to the session last put for it |
| PvcEntries.LookupIsExact | internal/state/store.go:115-129 | over any run a lookup returns a session if and only if the key was kept since its last put, its entry is unexpired, and the session is stored and live under the id last put |
| PvcEntries.LastPutIsFoundExactly | internal/state/store.go:115-129 | the session last put for a claim is found if and only if its key was kept since and it is still stored and live |
| PvcEntries.DeleteKeepsFoundExactly | internal/state/store.go:105-113 | deleting another id keeps a session found if and only if that id is not stored for the same claim |
| PvcIndex.PutAgreesExactly | internal/state/store.go:43-56 | a put leaves no entry leading to a session of another claim if and only if its id is stored or no entry that outlives the put leads to it under another key |
| PvcIndex.AgreesExactly | internal/state/store.go:43-129 | over a run no entry ever does if and only if every put meets that |
| PvcIndex.FoundExactly | internal/state/store.go:115-129 | then a lookup returns a session if and only if it is the one last put for the claim, its key was kept since, and it is stored and live |
| PvcIndex.FindReturnsThatPvc | internal/state/store.go:115-129 | and it is a session of exactly that namespace and PVC UID, through evictions, expiries, purges and deletes |
| PvcIndex.NoStaleReputSuffices | internal/state/store.go:43-56 | runs in which no session id that fell out of the cache is put again for another claim meet the condition |
| PvcIndex.FixedHomesSuffice | internal/state/store.go:43-56 | sessions that keep their PVC for good meet the condition |
| PvcIndex.StaleReputIsMisfound | internal/state/store.go:43-56 | the condition is needed: an evicted session put again for another claim is found under the old one |
| PvcIndex.NewerSessionIsLost | internal/state/store.go:105-113 | of two sessions put for one claim, deleting the older makes the newer unfound although it is stored |
| AuthRuns.HandedOutAtMostOnce | internal/state/store.go:192-215 | over any run successful consumes of an id never outnumber its creations |
| AuthRuns.HandedOutIsLastCreated | internal/state/store.go:192-215 | what is handed out is the request last created under the id, unexpired, unused and with that secret |
| AuthRuns.LastCreatedIs | internal/state/store.go:192-199 | the request last created under an id is that of the last creating call, with the secret of that call |
| AuthRuns.HandedOutForGood | internal/state/store.go:201-215 | a consumed request is never handed out again until it is created anew |
| AuthRuns.WrongHashKeepsTheRequest | internal/state/store.go:209-211 | a wrong hash does not use the request up |
| World.DeletingTheOne | internal/session/pod_reconcile.go:123-146 | deleting the one live pod found leaves the claim unserved |
| World.CreatingTheOne | internal/session/pod.go:156-163 | creating a pod of a new name for an unserved claim keeps names unique and at most one live pod |
| World.AgedStaysOrderly | internal/session/pod.go:352-357 | marking pods for deletion and changing phases keeps names unique and at most one live pod |
| LifecycleInvariants.EmptyIsConsistent | internal/state/store.go:31-41 | a new store is consistent, so the invariant holds from the start |
| LifecycleInvariants.ConsistentStep | internal/state/store.go:43-276 | every store call the services make keeps viewers indexed under stored pods, and only there, and the PVC index true |
| LifecycleInvariants.FreshStays | internal/session/id.go:9-15 | calls that put nothing keep a fresh pod-session id fresh |
| PodLifecycle.PodService.PodsAge | internal/session/pod_reconcile.go:41-52 | deletion marks and phase changes made by the cluster keep the invariant |
| PodLifecycle.PodService.FindExistingViewerPod | internal/session/pod_reconcile.go:123-146 | finds a viewer pod of this claim and version in the namespace that is neither being deleted nor failed nor succeeded, or none exists |
| PodLifecycle.PodService.CreateViewerPod | internal/session/pod.go:156-190 | on success that pod was added; otherwise nothing, or that pod marked again, left there only if creating it failed after taking effect or the delete after the failed call failed too |
| PodLifecycle.PodService.EnsurePodSession | internal/session/pod.go:77-196 | returns the reusable session found and changes no pod; otherwise a new session and a new pod, given field by field, the only live one of the claim, exactly the others being marked; at most one live pod whichever API call fails; with an API that works it succeeds if and only if a session is reusable or the pod name is new |
| PodLifecycle.PodService.SyncPodStatus | internal/session/pod.go:215-264 | each status is reached in exactly the phases and readiness listed for it, from a pod of that namespace and name, and nothing else of the session changes but the time of the look |
| PodLifecycle.PodService.ClosePodSession | internal/session/pod.go:285-320 | the session goes only after its pod was marked for deletion; otherwise it stays, marked terminating; it fails only if the session is missing or the API fails; the session returned is terminated |
| PodLifecycle.PodService.RefreshPodSessionKeepalive | internal/session/pod.go:322-350 | the stored expiry moves to the present plus the grace, or the store is unchanged; a pod that is gone makes it fail |
| PodLifecycle.PodService.ReconcilePod | internal/session/pod_reconcile.go:32-86 | a spared pod is left alone, any other is marked, and nothing else changes but the status of its session |
| PodLifecycle.PodService.ReconcileViewerPods | internal/session/pod_reconcile.go:11-88 | marks only listed pods that are labelled, not being deleted, and terminal or neither of a known session of this version nor young and of another version; on success exactly those; sessions change status only |
| PodLifecycle.UnsparedExactly | internal/session/pod_reconcile.go:41-86 | the pods to delete, by their own fields: a session label, not being deleted, and failed, succeeded, or without a stored session of this version and of this version or older than the grace |
| PodLifecycle.FindsReusableExactly | internal/session/pod.go:97-116 | a session is reused exactly when the unexpired index entry of its claim leads to a stored one that is unexpired, of the version and administration asked for, and not terminated |
| PodLifecycle.KeepaliveDecidesNothing | internal/session/pod_reconcile.go:73-85 | pods that differ in the keepalive annotation only are deleted alike |
| PodLifecycle.PodService.DeleteViewerPodsBySessionID | internal/session/pod_reconcile.go:97-121 | marks only pods labelled with the session, and on success all of them |
| Cleanup.CleanupService.CleanupIdlePods | internal/session/cleanup.go:74-89 | no session a live viewer uses is lost; on success expired idle sessions are closed, exactly their pods marked, their number returned, and expired ones in use kept with a later expiry; with an API that works it succeeds if and only if each of these has its pod |
| Cleanup.CleanupService.RunOnce | internal/session/cleanup.go:37-68 | the same over a whole run, after which no cache holds an entry expired at its start; marked are exactly the pods reconciliation asks to delete and those of expired idle sessions |
| Cleanup.VanishedPodFailsTheRun | internal/session/cleanup.go:74-79 | one expired session in use without a pod is enough to fail every run |
| Cleanup.ListingTellsUse | internal/session/cleanup.go:74-81 | a listing is empty if and only if no live viewer uses the pod session |
| Cleanup.RefreshWithoutGraceIsPurged | internal/session/pod.go:336-349 | a refreshed expiry not past the instant is purged in the same run |
| Hooks.AllowedAtMostOncePerCreation | internal/session/auth.go:155-188 | over any run each creation of an auth request leads to at most one hook that allows |
| Hooks.HookAllowsExactly | internal/session/auth.go:155-195 | a hook allows if and only if its token is the configured one and not empty, a stored request of that id is unexpired, unused and has the hash, viewer and pod given, the viewer is stored, unexpired and neither closed nor expired, and the pod session stored, unexpired and ready |
| Hooks.AllowedHookMatchesItsRequest | internal/session/auth.go:155-195 | an allowed hook has the configured token and comes before expiry with the secret, viewer and pod of the request, while the viewer is live and the pod ready |
| Hooks.HookUsesUp | internal/session/auth.go:161-179 | a request a hook finds is used up even when a later check denies |
| ViewerLifecycle.ViewerService.VerifyHook | internal/session/auth.go:155-217 | the hook makes exactly those store calls and allows exactly under those conditions; whoever is allowed gave the configured token, which is not empty, and may download, and create, rename, edit and remove if and only if the stored viewer's permission is readwrite; a denial grants nothing |
| ViewerLifecycle.ViewerService.IssueTokenFor | internal/session/auth.go:57-143 | a usable cached token is returned as it is; otherwise the request of the login is stored before the first hook, with that viewer, pod and secret and the expiry of the request, every hook meets the state the one before left, and without a token the call fails, while a token is stored and returned with its own expiry and is the one the next call finds until then |
| ViewerLifecycle.ViewerService.CallHooks | internal/session/auth.go:103-112 | during a login each hook meets the state the call before left, and no live session is lost |
| ViewerLifecycle.LoginIsLetIn | internal/session/auth.go:81-188 | the hook asked with the token and secret of that login is allowed if and only if the token is not empty, the request has not expired, the viewer is usable and the pod ready |
| ViewerLifecycle.UsableTokenExactly | internal/state/store.go:231-249 | a token is usable for a viewer and a pod if and only if an unexpired record of both with a raw token is stored |
| ViewerLifecycle.AccessExactly | internal/session/viewer.go:161-340 | access is given to the stored unexpired viewer of that user, refused to others, and not found otherwise |
| ViewerLifecycle.ViewerService.CreateViewerSession | internal/session/viewer.go:72-159 | a new viewer is stored and indexed under a stored session of its claim, with the namespace, claim name, mode as permission and administration of the claim, alive for the timeout, showing the status of that session; with an API that works, a claim and a new pod name it succeeds |
| ViewerLifecycle.ViewerService.GetViewerSession | internal/session/viewer.go:161-200 | its own user, and nobody else, gets the live viewer, stored and following its pod session, with the status seen of its pod when the API answers; a refusal only looks it up |
| ViewerLifecycle.ViewerService.IssueToken | internal/session/viewer.go:202-251 | a token is issued only to the user of a live viewer, for a ready stored pod session: the viewer's own as seen again, or the replacement of its claim if that is gone; when there is such a session, if and only if it is ready and a usable token is cached or the login answers; the viewer is then stored with the session used, and the token has the cached or the new expiry; a refusal changes nothing else, and unless the login fails no failure touches the tokens |
| ViewerLifecycle.ViewerService.SessionToUse | internal/session/viewer.go:223-239 | the viewer's own stored session with nothing changed; or, if that is gone, a stored replacement of its claim, the viewer being stored as following it |
| ViewerLifecycle.ViewerService.ReplaceMissingPodSession | internal/session/viewer.go:253-291 | exactly the pods labelled with the old session are marked, then a stored session of the viewer's claim is ensured; with an API that works, a named claim that is found and a new pod name it succeeds |
| ViewerLifecycle.ViewerService.HeartbeatForUser | internal/session/viewer.go:297-320 | for its user, or anyone when none is named, the viewer's expiry moves to the heartbeat plus the timeout and its pod session's to the refresh plus the grace; with an API that works it succeeds if and only if that session is gone or its pod is there |
| ViewerLifecycle.ViewerService.CloseViewerSessionForUser | internal/session/viewer.go:326-340 | succeeds exactly for the user of a live viewer, or anyone when none is named; then neither the viewer nor a token of it is left, and otherwise it is only looked up |
| FileTree.FlattenResources | web/src/features/file-manager/utils/file-tree.ts:24-52 | the first entries of the listing without the trash folder and the folder itself, in order |
| FileTree.RowBuilder.AppendRows | web/src/features/file-manager/utils/file-tree.ts:113-178 | the recursion over shared rows and seen paths computes the rows function, and terminates on cycles |
| FileTree.BuildRows | web/src/features/file-manager/utils/file-tree.ts:88-103 | the defaults of 2000 rows and depth 32 |
| FileTreeLaws.BudgetOnlyTruncates | web/src/features/file-manager/utils/file-tree.ts:88-178 | for budgets n <= m the rows built with n are exactly the first n rows built with m |
| FileTreeLaws.RowIdsAreDistinct | web/src/features/file-manager/utils/file-tree.ts:113-178 | all row ids are distinct and no row is deeper than the limit |
| FileTreeLaws.OpenFoldersAreBlocks | web/src/features/file-manager/utils/file-tree.ts:147-185 | each opened folder's rows are one contiguous block of paths under it, complete unless the budget ran out |
| FileTreeLaws.NothingIsMissed | web/src/features/file-manager/utils/file-tree.ts:113-178 | while the budget lasts every admissible entry of the listing and of every opened folder has a row |
| FileTreeLaws.EveryRowIsListed | web/src/features/file-manager/utils/file-tree.ts:113-178 | each row is an entry of the listing or a child of a folder opened by an earlier row |
| FolderRows.LoadedEntriesHaveRows | web/src/features/file-manager/utils/file-tree.ts:147-177 | while the budget lasts, every entry of the branch loaded for an expanded folder's path, under it and within the depth, has a row |
| FolderRows.RowsComeFromLists | web/src/features/file-manager/utils/file-tree.ts:113-177 | each resource row is an entry of the listing, or of the branch loaded without error for a folder expanded above it |
| FolderRows.SiblingsInOrder | web/src/features/file-manager/utils/file-tree.ts:118-177 | the entries of a loaded branch get their rows in its order, unless the later one was listed further up |
| FolderRows.TopInOrder | web/src/features/file-manager/utils/file-tree.ts:118-177 | so do the entries of the listing |
| FolderRows.FailedBranchesShowTheirError | web/src/features/file-manager/utils/file-tree.ts:158-164 | an expanded folder whose branch failed is followed by its error row, one level deeper, and error rows are nowhere else |
| FolderRows.OneMoreItem | web/src/features/file-manager/utils/file-tree.ts:35-48 | one more item of a listing is left out when it is the trash folder or the folder itself, and else becomes the last entry |
| FileTreeLaws.RowsWithoutAncestorGuard | web/src/features/file-manager/utils/file-tree.ts:124-131 | dropping the ancestor guard changes no row |
| FileTreeLaws.EmptyPathIsNoBlock | web/src/features/file-manager/utils/file-tree.ts:180-185 | below a folder with an empty path a row need not lie under it |
| PvcReferences.ReferencesFromSource | internal/kube/pvc_reference.go:312-355 | the annotation's references, or the first error, with the fallbacks for name, namespace, relation and path |
| PvcReferences.ReferencesFromPodSpec | internal/kube/pvc_reference.go:357-380 | one mounted reference per claim volume, with its first mount path |
| PvcReferences.MountPathsByVolumeName | internal/kube/pvc_reference.go:417-439 | the first mount path of each volume |
| PvcReferences.ReferencesFromStatefulSetClaims | internal/kube/pvc_reference.go:382-415 | exactly the wanted claims some template's name matches |
| PvcReferences.OrdinalsMatch | internal/kube/pvc_reference.go:441-452 | claims named after template, set and an ordinal match, and so do names with a signed number |
| PvcReferences.ListWorkloadReferences | internal/kube/pvc_reference.go:197-235 | succeeds if and only if both lists answer and all selected sources can be read, and then returns exactly their bindings |
| PvcReferences.ListCustomReferences | internal/kube/pvc_reference.go:237-264 | kinds that are not installed are skipped, any other failure is an error, and otherwise exactly the declared bindings |
| PvcReferences.ListBackupRepoReferences | internal/kube/pvc_reference.go:129-167 | one owned binding per wanted claim a repository names in any namespace |
| PvcDedupe.DedupeBindings | internal/kube/pvc_reference.go:471-486 | the first binding of each key of the sorted slice |
| PvcDedupe.DedupeKeepsLeastEvidence | internal/kube/pvc_reference.go:471-531 | whatever the input order and the sort's ties, exactly one binding per target is kept, the one with the least evidence |
| PvcDedupe.DedupeCoversKeys | internal/kube/pvc_reference.go:471-517 | whatever the fields hold, only given bindings are kept and every key of one is |
| PvcDedupe.KeyDeterminesClaim | internal/kube/pvc_reference.go:505-517 | bindings with equal keys and NUL-free claim names are for the same claim |
| PvcDedupe.KeyIsTarget | internal/kube/pvc_reference.go:505-517 | NUL-free bindings have equal dedupe keys if and only if they differ in evidence at most |
| PvcDedupe.SameTargetSortsByEvidence | internal/kube/pvc_reference.go:519-531 | bindings for one target sort by evidence |
| PvcDedupe.NulFieldsCollide | internal/kube/pvc_reference.go:505-517 | two targets with a NUL in a field can share a key |
| PvcDedupe.CollidingTargetIsLost | internal/kube/pvc_reference.go:471-486 | of two targets that share a key exactly one is kept |
| PvcGuard.FilterBindings | internal/kube/pvc_reference.go:488-503 | keeps exactly the bindings of wanted claims, in order |
| PvcGuard.ClaimsByNamespace | internal/kube/pvc_reference.go:183-195 | the nested map of the list, claim by claim |
| PvcGuard.ClaimsOfMeans | internal/kube/pvc_reference.go:183-195 | a claim is wanted if and only if it is in the list with a namespace and a name |
| PvcGuard.ListPVCReferences | internal/kube/pvc_reference.go:103-127 | succeeds if and only if everything can be read; then it returns only bindings in scope, one of every key, none if and only if none is in scope, and without NULs exactly the least-evidence ones, one per target |
| PvcGuard.PvcReferenceIndex | internal/session/pvc.go:701-722 | the references of each allowed claim, in order |
| PvcGuard.CollectedIsLocal | internal/kube/pvc_reference.go:103-415 | what is collected about a claim depends neither on the scope listed nor on the other claims |
| PvcGuard.DetectionCommutesWithRestriction | internal/session/pvc.go:221-267 | on a readable snapshot the guard, the namespace listing and the cluster-wide listing see the same references of a claim |
| PvcGuard.DetectPVCReferences | internal/session/pvc.go:622-650 | the references of one claim in the order of their sort keys, empty if and only if nothing is in scope, or an error if they cannot be known |
| PvcGuard.ListReferences | internal/session/pvc.go:221-243 | the same references for each claim of a namespace, for names without NUL empty if and only if nothing refers to it, and none at all if they cannot be known |
| PvcGuard.ListReferencesInNamespaces | internal/session/pvc.go:245-267 | the same for each claim of the allowed namespaces, and nothing for any other, from one cluster-wide collection |
| PvcManifests.ScopeIsWhatManifestsSay | internal/kube/pvc_reference.go:103-469 | a reference to a claim is in scope if and only if a source labelled true in its namespace mounts the claim, declares it in its annotation or owns it by a template, or a backup repository names it, each field of the reference read off the manifest |
| PvcManifests.DetectableMeans | internal/kube/pvc_reference.go:103-264 | detection can answer if and only if every list of the namespace answers but for kinds that are not installed, and every labelled source's annotation is blank or parses and names a claim in each item |
| PvcManifests.ReportedAreLeast | internal/kube/pvc_reference.go:471-531 | without NULs, reported are exactly the references with the least evidence for their target |
| PvcManifests.MountedClaimIsReferred | internal/kube/pvc_reference.go:357-380 | whatever a labelled deployment or stateful set has as a volume is referred to, mounted or not |
| PvcManifests.TrimSpaceExactly | internal/kube/pvc_reference.go:289-313 | trimming takes off exactly the white space at both ends |
| PvcManifests.AtoiMeans | internal/kube/pvc_reference.go:441-452 | an ordinal is digits, perhaps after a sign, that fit 64 bits |
| PvcManifests.LessMeans | internal/kube/pvc_reference.go:471-474 | texts are ordered by their first difference |
| PvcDeletion.DetectMountedPods | internal/kube/mount.go:39-92 | lists exactly the active pods of the namespace that mount the claim |
| PvcDeletion.ClaimApi.DeletePVC | internal/session/pvc.go:404-453 | deletes that claim only, if and only if no call fails, it exists, no pod of the namespace that neither failed nor succeeded has it as a volume, everything can be read and no manifest refers to it; otherwise nothing changes, and the references returned are what the manifests say |

## Left out

- HTTP handlers, Encore wiring, logging, metrics, tracing and configuration loading.
- React components, hooks, query caches, translations, uploads, and `sortEntries`, whose order is the browser's locale.
- The Kubernetes, File Browser and Prometheus clients: their answers are parameters, or the script of the world.
- Random ids, secrets and hashes are parameters; a failing random source is not modelled.
- Interleavings inside one service method: each is one step. Store methods are atomic by their mutex.
- Go's pointers: stored records are values, so the clones at the store's boundary are the identity and aliasing is not captured. The linked list of the cache is a sequence of keys.
- Engine limits of JavaScript: safe integers, BigInt size, exponents with more digits than a double, and digits options that are not integers.
- The WeakMap that caches canonical strings, JSON and zod coercion of quantities, and locale formatting.
- `normalizePath` and other path helpers: entries carry their paths, and flattening takes the normalizer as a parameter. Property names such as `__proto__` in the branch record are not special.
- Fields of sessions that no rule reads: URLs, service name, node name, reason, display mode and creation time.
- The checks of a claim before a viewer is created (existence, access mode, mounts): their result is a parameter of the service methods. Of mount detection only the active pods that mount a claim are modelled, not nodes and scheduling.
- The contents of the pod, service, ingress and config map that are created: a pod carries its labels, phase and times.
- Creating, updating, describing and expanding claims, storage classes and volume statistics.
- JSON decoding of the references annotation is a parameter; a list call fails as a whole.
- The garbage collection of the cluster is only that a pod may vanish at any time.
- PvcDedupe.SortBindings: stands for the library sort, in place on a slice there and by insertion here; callers rely only on getting some sorted permutation.
- PodLifecycle.PodService.EnsurePodSession: takes a fresh id and a non-empty namespace, which the source gets from random bytes and from a claim that was found.
- ViewerLifecycle.ViewerService.IssueTokenFor: which hooks the File Browser calls during a login is a parameter, and no claim links their verdict to the login's outcome.
