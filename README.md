# B/L number extraction, modelled in Dafny

This project models `BlNumberExtractorService`, the back-end service that finds
bill-of-lading (B/L) and air-waybill reference numbers in an OCR transcript of a
shipping document, and proves properties of the model.

The service works in these steps:

- It cleans the transcript (`normalize`).
- It runs two regular-expression scans over it: one for numbers next to a label such
  as `B/L No.`, and one global fallback scan.
- Each captured string is compacted (`normalizeBl`) and filtered (`isValidBlNumber`).
- Surviving values go into an insertion-ordered map of candidates:
  - a label match adds 2 to the value's score;
  - a global match only registers the value.
- Each candidate then gets a shape bonus (`patternScore`, 0 to 3).
- The candidates are sorted stably by descending score.
- Three front-ends expose the result:
  - `extractBlNumbers` returns the list;
  - `extractPrimaryBlNumber` returns its head or a "not found" text;
  - `extractBlNumbersOnly` returns a numbered listing.

Files:

- `text.dfy` (module `Text`): the Java character classes (`\d`, `[A-Z]`, `\s`, `.`),
  `replaceAll` over one character class, `trim()` and decimal rendering.
- `normalizer.dfy` (module `Normalizer`): `normalize`.
- `bl_number.dfy` (module `BlNumber`): `normalizeBl`, `isValidBlNumber` and
  `patternScore`.
  - Each anchored pattern is a predicate over the whole string.
  - A pattern that can match in several ways is an existential over its split points.
- `ranking.dfy` (module `Ranking`): the specification of the extraction as functions:
  - which values are admitted;
  - the map's insertion order (`FirstSeen`);
  - the final score;
  - a stable descending sort (`SortByScore`);
  - the ranked list (`Ranked`);
  - lemmas about all of these.
- `extractor.dfy` (module `Extractor`): the imperative part of the service.
  - The `LinkedHashMap` of candidates is a class, `CandidateMap`, whose key order and
    entries the two scanning loops update in place.
  - The scoring loop, the in-place sort of an array, and the `StringBuilder` loop of
    the listing are methods.
  - Each method is proved equal to the specification functions of `Ranking`.

Two acceptance branches of `isValidBlNumber` matter less than they appear:

- Line 199 would accept the air waybill `176-12345678`. But line 189 first rejects
  every value with no uppercase letter, so no digits-and-hyphens value is ever
  accepted (`BlNumber.AirWaybillNeverAccepted`, `BlNumber.AirWaybillRejectedCase`).
- Line 198 accepts the slash form, but `normalizeBl` has already removed the slashes
  of such a value. What is left must pass line 202, which needs at least two leading
  letters and at most twelve trailing characters. So `MI/24/304058` is kept as
  `MI24304058`, while a one-letter slash form such as `M/24/304058` is always lost
  (`BlNumber.SlashFormVerdict`).

## Model

Source paths are relative to the repository root.

| member | source | states |
|---|---|---|
| Normalizer.Normalize | BE/src/main/java/com/neweye/ocr/Service/BlNumberExtractorService.java:154-161 | A null transcript gives ""; otherwise no zero-width character, no-break space or Unicode dash is left in the result |
| Normalizer.NormalizeIsCharwise | BE/src/main/java/com/neweye/ocr/Service/BlNumberExtractorService.java:156-160 | The three `replaceAll` passes equal one left-to-right pass over the NFKC output that deletes zero-width characters, turns no-break spaces into ' ' and dashes into '-', and keeps every other character in order |
| Normalizer.CleanIdempotent | BE/src/main/java/com/neweye/ocr/Service/BlNumberExtractorService.java:157-159 | Cleaning an already cleaned text changes nothing |
| BlNumber.NormalizeBl | BE/src/main/java/com/neweye/ocr/Service/BlNumberExtractorService.java:166-174 | A null capture gives ""; the result never holds a `\s` character |
| BlNumber.SlashFormLosesOnlySlashes | BE/src/main/java/com/neweye/ocr/Service/BlNumberExtractorService.java:168-172 | A whitespace-free value of the slash form `[A-Z]{1,4}/\d{2}/\d{5,}` becomes exactly the letters, the two digits and the serial, with only the two slashes removed |
| BlNumber.NormalizeBlIdempotent | BE/src/main/java/com/neweye/ocr/Service/BlNumberExtractorService.java:166-174 | Compacting an already compacted value changes nothing |
| BlNumber.NoSlashNotSlashForm | BE/src/main/java/com/neweye/ocr/Service/BlNumberExtractorService.java:170 | A string without '/' never has the slash form |
| BlNumber.IsValidBlNumber | BE/src/main/java/com/neweye/ocr/Service/BlNumberExtractorService.java:179-205 | An accepted value has 6 to 20 characters once trimmed; a container number (4 letters and 7 digits) is always rejected |
| BlNumber.ValidValueShape | BE/src/main/java/com/neweye/ocr/Service/BlNumberExtractorService.java:179-205 | An accepted value, trimmed: is not all digits; has 6 to 20 characters; contains an uppercase letter and a digit; ends in a digit; is not a container number or an air waybill; has the slash form or the mixed letters-and-digits form |
| BlNumber.NoUppercaseRejected | BE/src/main/java/com/neweye/ocr/Service/BlNumberExtractorService.java:189 | A value without an uppercase ASCII letter is rejected, all-lowercase values included |
| BlNumber.DigitsAndHyphensRejected | BE/src/main/java/com/neweye/ocr/Service/BlNumberExtractorService.java:183-199 | A value made only of digits and hyphens is rejected |
| BlNumber.AirWaybillNeverAccepted | BE/src/main/java/com/neweye/ocr/Service/BlNumberExtractorService.java:189-199 | A value whose trimmed form has the air-waybill shape is rejected, so the acceptance at line 199 never fires |
| BlNumber.NormalizedCaptureNotSlashForm | BE/src/main/java/com/neweye/ocr/Service/BlNumberExtractorService.java:198 | For a captured string, the compacted value is unchanged by `trim()` and never has the slash form, so the acceptance at line 198 never fires on it |
| BlNumber.AcceptedCaptureIsLabelStyle | BE/src/main/java/com/neweye/ocr/Service/BlNumberExtractorService.java:198-202 | Every value accepted from a captured string has the `[A-Z]{2,10}-?[A-Z0-9]{1,12}` form and is made only of ASCII letters, digits and hyphens |
| BlNumber.LabelStyleChars | BE/src/main/java/com/neweye/ocr/Service/BlNumberExtractorService.java:202 | A value of the mixed letters-and-digits form holds only ASCII letters, digits and hyphens |
| BlNumber.LabelStyleAccepted | BE/src/main/java/com/neweye/ocr/Service/BlNumberExtractorService.java:179-205 | A value of the mixed form with 6 to 20 characters, an uppercase letter and a final digit that is not a container number is accepted |
| BlNumber.LettersThenDigitsVerdict | BE/src/main/java/com/neweye/ocr/Service/BlNumberExtractorService.java:179-205 | One to four letters followed by at least seven digits are accepted exactly when there are at least two letters, one uppercase, at most twelve digits, and the value is not a container number |
| BlNumber.ContainerVerdict | BE/src/main/java/com/neweye/ocr/Service/BlNumberExtractorService.java:195 | Letters followed by digits form a container number exactly when there are four letters and eleven characters |
| BlNumber.LabelStyleVerdict | BE/src/main/java/com/neweye/ocr/Service/BlNumberExtractorService.java:202 | Letters followed by digits have the mixed form exactly when there are at least two letters and at most twelve digits |
| BlNumber.SlashFormVerdict | BE/src/main/java/com/neweye/ocr/Service/BlNumberExtractorService.java:166-202 | A slash form survives `normalizeBl` and `isValidBlNumber` exactly when its prefix has at least two letters, one uppercase, the digits number at most twelve, and the result is not a container number; a one-letter prefix is always lost |
| BlNumber.PatternScore | BE/src/main/java/com/neweye/ocr/Service/BlNumberExtractorService.java:211-234 | The bonus is between 0 and 3; it is 3 exactly when the length is 10 to 12 and the value has the strong shape |
| BlNumber.AirWaybillShapeCase | BE/src/main/java/com/neweye/ocr/Service/BlNumberExtractorService.java:199 | `176-12345678` has the air-waybill shape of line 199 |
| BlNumber.AirWaybillRejectedCase | BE/src/main/java/com/neweye/ocr/Service/BlNumberExtractorService.java:189 | `176-12345678` is rejected nonetheless |
| BlNumber.ContainerNumberCase | BE/src/main/java/com/neweye/ocr/Service/BlNumberExtractorService.java:195 | The container number `ABCD1234567` is rejected |
| BlNumber.SlashFormCase | BE/src/main/java/com/neweye/ocr/Service/BlNumberExtractorService.java:170 | `MI/24/304058` has the slash form, with a two-letter prefix |
| BlNumber.LabelStyleAcceptedCase | BE/src/main/java/com/neweye/ocr/Service/BlNumberExtractorService.java:202 | `CHLY720Q013` is accepted |
| BlNumber.SlashFormKeptCase | BE/src/main/java/com/neweye/ocr/Service/BlNumberExtractorService.java:166-202 | `MI/24/304058` is compacted and accepted |
| BlNumber.OneLetterSlashFormLostCase | BE/src/main/java/com/neweye/ocr/Service/BlNumberExtractorService.java:166-202 | `M/24/304058` is compacted and rejected |
| Ranking.Candidate | BE/src/main/java/com/neweye/ocr/Service/BlNumberExtractorService.java:248-253 | The candidate record: the compacted value and its accumulated score (the unused `fromLabel` flag is left out) |
| Ranking.Admit | BE/src/main/java/com/neweye/ocr/Service/BlNumberExtractorService.java:57-61 | One capture yields at most one value: its compacted form when that is non-empty and valid, and nothing otherwise |
| Ranking.Accepted | BE/src/main/java/com/neweye/ocr/Service/BlNumberExtractorService.java:57-61 | A pass hands the map at most one value per capture; every value is non-empty, free of whitespace and valid |
| Ranking.AcceptedMembers | BE/src/main/java/com/neweye/ocr/Service/BlNumberExtractorService.java:57-61 | A value is handed to the map exactly when some capture of the pass admits it |
| Ranking.AdmitsMeans | BE/src/main/java/com/neweye/ocr/Service/BlNumberExtractorService.java:57-61 | A capture admits a value exactly when it compacts to that value and the value is non-empty and valid |
| Ranking.Count | BE/src/main/java/com/neweye/ocr/Service/BlNumberExtractorService.java:63-64 | The number of label hits of a value is 0 exactly when the label pass never produced it |
| Ranking.Score | BE/src/main/java/com/neweye/ocr/Service/BlNumberExtractorService.java:63-84 | The final score is the shape bonus plus 2 per label-pass hit: it equals the bonus exactly when the label pass never produced the value, is at least the bonus plus 2 otherwise, and is at most 2 × the number of label captures + 3 |
| Ranking.FirstSeen | BE/src/main/java/com/neweye/ocr/Service/BlNumberExtractorService.java:52 | The insertion-ordered key sequence has no duplicates and holds exactly the values ever put |
| Ranking.FirstSeenPrefix | BE/src/main/java/com/neweye/ocr/Service/BlNumberExtractorService.java:52 | Putting more values only appends keys: the earlier key order is a prefix of the later one |
| Ranking.SortByScore | BE/src/main/java/com/neweye/ocr/Service/BlNumberExtractorService.java:87-88 | The stable descending sort keeps the number of candidates (its ordering, stability and permutation are the lemmas below) |
| Ranking.SortByScorePermutes | BE/src/main/java/com/neweye/ocr/Service/BlNumberExtractorService.java:87-88 | Sorting is a permutation: same length, same multiset |
| Ranking.SortByScoreDescending | BE/src/main/java/com/neweye/ocr/Service/BlNumberExtractorService.java:88 | Scores never increase along the sorted sequence |
| Ranking.SortByScoreDistinct | BE/src/main/java/com/neweye/ocr/Service/BlNumberExtractorService.java:87-88 | Sorting a duplicate-free sequence gives a duplicate-free one |
| Ranking.SortByScoreStable | BE/src/main/java/com/neweye/ocr/Service/BlNumberExtractorService.java:86-88 | Candidates with equal scores keep their input order |
| Ranking.RankByPermutes | BE/src/main/java/com/neweye/ocr/Service/BlNumberExtractorService.java:86-91 | Ranking distinct values by any score gives them all back, each once |
| Ranking.RankByDescending | BE/src/main/java/com/neweye/ocr/Service/BlNumberExtractorService.java:88 | Ranked values come by non-increasing score |
| Ranking.RankByStable | BE/src/main/java/com/neweye/ocr/Service/BlNumberExtractorService.java:86-88 | Ranked values with equal scores come in input order |
| Ranking.Ranked | BE/src/main/java/com/neweye/ocr/Service/BlNumberExtractorService.java:82-92 | The result is duplicate-free and holds exactly the candidate map's keys, as many as there are keys |
| Ranking.RankedMembers | BE/src/main/java/com/neweye/ocr/Service/BlNumberExtractorService.java:48-92 | A value is in the result exactly when it is non-empty and valid, and some capture of either pass compacts to it |
| Ranking.RankedValid | BE/src/main/java/com/neweye/ocr/Service/BlNumberExtractorService.java:57-75 | Every value in the result is non-empty, whitespace-free and valid |
| Ranking.RankedScoresDescending | BE/src/main/java/com/neweye/ocr/Service/BlNumberExtractorService.java:82-88 | Along the result, the final score (2 × label hits + shape bonus) never increases |
| Ranking.RankedTiesInInsertionOrder | BE/src/main/java/com/neweye/ocr/Service/BlNumberExtractorService.java:86-88 | Values with equal final scores come in the order they first entered the map |
| Ranking.LabelledOutranksUnlabelled | BE/src/main/java/com/neweye/ocr/Service/BlNumberExtractorService.java:54-88 | A label-pass value comes before a value only the global pass found, unless the latter's shape bonus exceeds the former's by more than 2 |
| Extractor.CandidateMap.constructor | BE/src/main/java/com/neweye/ocr/Service/BlNumberExtractorService.java:52 | The candidate map starts empty |
| Extractor.CandidateMap.GetOrDefault | BE/src/main/java/com/neweye/ocr/Service/BlNumberExtractorService.java:63 | `getOrDefault` gives the stored candidate for a present key and the default for an absent one |
| Extractor.CandidateMap.Put | BE/src/main/java/com/neweye/ocr/Service/BlNumberExtractorService.java:66 | `put` updates the entry; a new key is appended to the key order, and an existing key keeps its place |
| Extractor.CandidateMap.CandidatesInOrder | BE/src/main/java/com/neweye/ocr/Service/BlNumberExtractorService.java:87 | `values()` lists the entries in key insertion order |
| Extractor.PutMatch | BE/src/main/java/com/neweye/ocr/Service/BlNumberExtractorService.java:57-66 | One loop iteration: a rejected capture leaves the map unchanged; an admitted one adds the bonus to its value's entry, creating it at the end of the order if new |
| Extractor.AddScore | BE/src/main/java/com/neweye/ocr/Service/BlNumberExtractorService.java:63-66 | `getOrDefault`, the score increment and `put` add the bonus to the value's entry, creating it at the end of the order if new |
| Extractor.LabelMatchStep | BE/src/main/java/com/neweye/ocr/Service/BlNumberExtractorService.java:57-66 | After each label match, the keys are the first-seen order of the admitted values, and each score is 2 × that value's hits so far |
| Extractor.GlobalMatchStep | BE/src/main/java/com/neweye/ocr/Service/BlNumberExtractorService.java:72-78 | A global match extends the key order and leaves every score as the label pass set it |
| Extractor.LabelPass | BE/src/main/java/com/neweye/ocr/Service/BlNumberExtractorService.java:55-67 | After the label loop, the keys are the first-seen order of the admitted values, and each score is 2 × its hits |
| Extractor.GlobalPass | BE/src/main/java/com/neweye/ocr/Service/BlNumberExtractorService.java:70-79 | After the global loop, the keys are the first-seen order of all admitted values, and the scores are unchanged |
| Extractor.AddPatternScores | BE/src/main/java/com/neweye/ocr/Service/BlNumberExtractorService.java:82-84 | Each entry's score becomes 2 × label hits + shape bonus; the key order is unchanged |
| Extractor.CollectCandidates | BE/src/main/java/com/neweye/ocr/Service/BlNumberExtractorService.java:52-87 | The candidates, in map order, are exactly the admitted values in first-seen order, each with its final score |
| Extractor.ShiftLeft | BE/src/main/java/com/neweye/ocr/Service/BlNumberExtractorService.java:88 | Moves the last candidate left past every lower-scored one; the rest shifts one place right and the array is otherwise unchanged |
| Extractor.InsertLast | BE/src/main/java/com/neweye/ocr/Service/BlNumberExtractorService.java:88 | Inserting the next candidate into the sorted prefix gives `InsertByScore` of that prefix |
| Extractor.InsertAtBoundary | BE/src/main/java/com/neweye/ocr/Service/BlNumberExtractorService.java:88 | The insertion point after the last score at least as high is where the stable insertion puts the candidate |
| Extractor.SortByScoreDesc | BE/src/main/java/com/neweye/ocr/Service/BlNumberExtractorService.java:87-88 | The in-place sort leaves the array equal to the stable descending sort of its old contents |
| Extractor.ValuesOf | BE/src/main/java/com/neweye/ocr/Service/BlNumberExtractorService.java:90-91 | The result list holds the sorted candidates' values, in order |
| Extractor.ExtractBlNumbers | BE/src/main/java/com/neweye/ocr/Service/BlNumberExtractorService.java:48-93 | The returned list equals `Ranked` of the two passes' captures over the cleaned text; it is duplicate-free and every value is valid |
| Extractor.NotFoundIsNoValue | BE/src/main/java/com/neweye/ocr/Service/BlNumberExtractorService.java:100 | The not-found text contains whitespace, so it can never be an extracted value |
| Extractor.ExtractPrimaryBlNumber | BE/src/main/java/com/neweye/ocr/Service/BlNumberExtractorService.java:98-101 | The result is the not-found text exactly when no value was found; otherwise it is the best-ranked value |
| Extractor.ExtractBlNumbersOnly | BE/src/main/java/com/neweye/ocr/Service/BlNumberExtractorService.java:106-114 | No value gives the not-found text; otherwise the header plus one `i. value` line per ranked value, which reads back as exactly the ranked values numbered from 1 |
| Extractor.Listing | BE/src/main/java/com/neweye/ocr/Service/BlNumberExtractorService.java:109-113 | The `StringBuilder` loop builds the header followed by the listing lines from rank 1 |
| Extractor.ListingFromAppend | BE/src/main/java/com/neweye/ocr/Service/BlNumberExtractorService.java:110-112 | One more value adds exactly one more line, numbered after the others |
| Extractor.ListingReadsBack | BE/src/main/java/com/neweye/ocr/Service/BlNumberExtractorService.java:109-113 | Reading the listing line by line gives back each value with its rank, as long as no value holds a newline |

## Left out

- The `NEAR_LABEL` and `GLOBAL` patterns and their `Matcher.find()` loops (lines 16-43, 55-56, 70-71) are not modelled. Each pass is a parameter that maps the cleaned text to its group-1 captures in scan order, so the model covers every possible capture sequence, not only the ones the regex engine produces. `BlNumber.NormalizedCaptureNotSlashForm` and `BlNumber.AcceptedCaptureIsLabelStyle` assume only the character repertoire of those groups (letters, digits, '/', '-' and `\s`).
- `Normalizer.normalize(s, NFKC)` (line 156) is a library call whose tables are not modelled. It is a parameter `nfkc` of `Normalize`.
- `debugPatternMatching` (lines 119-147) is a diagnostic dump of the raw matches. It is not part of the extraction and is not modelled.
- `looksLikePhone` (lines 239-243) is never called and is not modelled.
- `Candidate.fromLabel` (lines 65, 250) is written and never read, so it is not modelled.
- `Candidate` is mutable in the source, and the map and the sorted list share the same objects. The model makes it a value and replaces the entry in the map. Each candidate lives under exactly one key, so the aliasing has no observable effect.
- `List.sort` is the library's stable merge sort. The model sorts with a stable insertion sort on an array (`Extractor.SortByScoreDesc`). Two stable sorts by the same key give the same order, so the result is the same, but the library's algorithm itself is not modelled.
- Java counts string length in UTF-16 units, while the model counts characters. An accepted value has the slash form or the mixed form (`BlNumber.ValidValueShape`), and both forms admit only ASCII letters, digits, '/' and '-' (`BlNumber.LabelStyleChars`, `BlNumber.SlashFormLosesOnlySlashes`). So `isValidBlNumber` gives the same verdict either way.
- Ranking.Score: uses unbounded integers. The Java `int` score could only wrap after about a billion label matches of one value, so the model does not model 32-bit wrap-around.
- The HTTP controllers, the image pre-processing, the OCR client and the front-end are outside this service and are not part of this model.
