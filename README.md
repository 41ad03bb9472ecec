# NestIndex in Dafny

NestIndex computes the *nesting index* of a double occurrence word (DOW): a word in which every
letter appears exactly twice, such as `1 2 1 2` or `1 2 3 3 2 1`. One reduction step goes from a
word to its children, with one child per choice:

- remove every letter of the word's maximal *repeat words* (`1 2 3 1 2 3`) and *return words*
  (`1 2 3 3 2 1`);
- or remove a single letter that lies in none of them.

Every child is then relabelled to ascending order (`3 1 1 3` becomes `1 2 2 1`). The nesting index
is the number of steps after which the empty word first appears.

The repository has two independent implementations, and this project models both:

- a C program, `NestIndex.c`;
- the browser script `reductions.js`, modelled without its DOM part.

Neither program is executed. The project proves the following about them:

- every loop computes the function that defines it;
- the two reductions produce DOWs, shorter than their parent;
- the nesting index exists, is the least level that holds the empty word, and lies between 1 and
  half the length of the word;
- the detected subwords have the shapes the algorithm promises;
- the cyclic equivalents (rotations, and in C also reversals) are exactly the relabelled
  rotations.

Files:

- `words.dfy` (module `Dow`) holds the shared vocabulary:
  - `Count`, `IsDow`;
  - `Dedup`, the letters in order of first appearance;
  - `Canon`, relabelling;
  - `Keep`, removal of a set of letters;
  - `Reverse`, `RotateLeft`, `Letters`.
- C files:
  - `c_words.dfy` — letters, the DOW test, relabel, remove_ltr, get_reverse;
  - `c_detector.dfy` — get_repeat_return_words, as the two switch-statement scans over the
    difference array;
  - `c_reducer.dfy` — is_in_seq, remove_seqs, step;
  - `c_engine.dfy` — copy_words, get_NI;
  - `c_isomorphisms.dfy` — get_isomorphisms.
- JavaScript files:
  - `js_words.dfy` — equal, alpha, occurrences, is_double_occurrence, relabel, remove,
    remove_sequences;
  - `js_sequences.dfy` — sequences, tau_sequences;
  - `js_reductions.dfy` — word_obj, step, get_NI;
  - `js_equivalencies.dfy` — get_equivalencies.

The C and JavaScript programs differ visibly in three places, and the model keeps each difference:

- **Removing a letter.**
  - C `remove_ltr` reverses the segment between the two occurrences (`CWords.RemoveLtrReverses`).
  - JS `remove` keeps the order (`JsWords.Remove`).
- **The DOW test.**
  - C `is_double_occurrence` checks only the first half of the letter table, so it accepts some
    odd-length words (see Findings).
  - JS `is_double_occurrence` rejects every odd length.
- **The first step.**
  - C `get_NI` steps the input word itself, not its relabelling.
  - JS relabels only the children.

## Model

| member | source | states |
|---|---|---|
| CWords.GetLetters | NestIndex.c:522-543 | the letter table is the distinct letters in order of first appearance, padded with zeros to the word's length |
| CWords.IsDoubleOccurrence | NestIndex.c:563-583 | the result is the as-written test: each of the first size/2 entries of the letter table occurs exactly twice |
| CWords.DowAccepted | NestIndex.c:563-583 | every DOW passes the C test |
| CWords.EvenAccepted | NestIndex.c:563-583 | an even-length word that passes the C test is a DOW |
| CWords.OddWordAccepted | NestIndex.c:563-583 | the odd word 1 1 2 passes the C test although it is not a DOW |
| CWords.CheckDow | NestIndex.c:377 | the corrected validation (even length and the C test) accepts exactly the DOWs |
| CWords.Relabel | NestIndex.c:841-863 | for a DOW, the pair loops write the canonical relabelling: each pair gets 1 + the rank of its letter's first appearance |
| CWords.RemovePairCounts | NestIndex.c:812-837 | the word remove_ltr builds has the input's letters minus the two copies of the removed letter |
| CWords.RemovePairDow | NestIndex.c:812-837 | removing one letter of a DOW leaves a DOW |
| CWords.RemoveLtr | NestIndex.c:812-837 | the three copy loops compute prefix, reversed middle and suffix around the two occurrences |
| CWords.RemoveLtrReverses | NestIndex.c:812-837 | on a b c a b c, removing a gives c b b c: the middle segment comes out reversed |
| CWords.GetReverse | NestIndex.c:905-920 | the result is a DOW and is the relabelling of the reversed word |
| CDetector.GetRepeatReturnWords | NestIndex.c:590-761 | the two scans return the slices of the detected return spans followed by the repeat spans, or NULL (None) when there are none |
| CDetector.ReturnScan | NestIndex.c:612-701 | the return-word scan over the difference array stores exactly the slices of the return spans the state machine records |
| CDetector.RepeatScan | NestIndex.c:703-755 | the repeat-word scan appends exactly the slices of the repeat spans after those already stored |
| CDetector.DetectedShapes | NestIndex.c:605-607 | every recorded return span climbs by 1 and then falls by 1 around a loop, and every repeat span is an ascending run followed by its copy |
| CDetector.DetectedCapacity | NestIndex.c:592-593 | for a DOW, at most size/2 subwords are recorded, so the size/2 slots suffice |
| CDetector.EventsDow | NestIndex.c:616-755 | zero steps plus downward steps number at most size/2 in a DOW, which bounds the recording events |
| CReducer.AscentSpec | NestIndex.c:801-803 | the do-while reads the strictly increasing prefix of a subword: it stops at the first non-increase |
| CReducer.DetectedScanned | NestIndex.c:793-806 | on detected subwords, the increasing prefixes contain every letter of the subwords |
| CReducer.IsInSeq | NestIndex.c:793-806 | the result is true exactly when the letter is in the scanned prefix of some subword |
| CReducer.RemoveSeqs | NestIndex.c:767-788 | the result is the word with every scanned letter removed, in order |
| CReducer.DropList | NestIndex.c:309-322 | the drop list is the letters in no detected subword, or all letters when none was detected; the count adds one for the removal child |
| CReducer.FirstChild | NestIndex.c:336-339 | the first child is the relabelled word without the detected subwords' letters |
| CReducer.FillRemovals | NestIndex.c:355-361 | each drop-list letter gives the relabelled word with that letter removed, in drop-list order |
| CReducer.Step | NestIndex.c:290-363 | the step returns the children of the step definition, and NULL (None) for words of length at most 4 or when removing the subwords empties the word |
| CReducer.StepNone | NestIndex.c:303-306 | step returns NULL exactly when the word has length at most 4, or subwords were detected and they hold every letter |
| CReducer.StepChildren | NestIndex.c:316-321 | a non-NULL step returns between 1 and size/2 children, each a canonical DOW shorter than the parent |
| CReducer.StepFirstChild | NestIndex.c:336-339 | with subwords, there is one child more than drop-list letters, the first child is the relabelled removal of the subwords' letters, and that removal keeps each remaining letter exactly twice |
| CEngine.CopyWords | NestIndex.c:491-516 | the destination holds each source word once, in order of first appearance |
| CEngine.StepAllNone | NestIndex.c:434-447 | a level stops with the current count exactly when some word of it steps to NULL |
| CEngine.StepAllChildren | NestIndex.c:416-421 | the next level has at most half the summed sizes, so the allocated slots suffice; it has at least as many words, each canonical, non-empty and at least 2 shorter than the longest current word |
| CEngine.StepLevel | NestIndex.c:433-460 | the inner loop concatenates the children of every current word, or stops at the first NULL |
| CEngine.GetNI | NestIndex.c:367-489 | the loop returns the nesting index of the definition |
| CEngine.NestingIndexRange | NestIndex.c:376-381 | the index is -1 exactly for non-DOWs, 0 exactly for the empty word, and between 1 and size/2 otherwise; it is 1 exactly when the first step returns NULL |
| CEngine.NestingIndexShort | NestIndex.c:302-306 | a non-empty DOW of length at most 4 has nesting index 1 |
| CIsomorphisms.Rotate | NestIndex.c:947-951 | the two copy loops write the word rotated left by offset |
| CIsomorphisms.Contains | NestIndex.c:955-957 | the comparison loop finds the candidate exactly when it is among the stored words |
| CIsomorphisms.SweepLoop | NestIndex.c:946-971 | one rotation loop appends the sweep of relabelled rotations up to the first repeat, or reports that they do not fit |
| CIsomorphisms.GetIsomorphisms | NestIndex.c:927-1007 | with room for 2*size words, the result is the rotation sweep of the word followed by that of its reverse |
| CIsomorphisms.GetIsomorphismsAsWritten | NestIndex.c:927-1007 | with the size slots the C code allocates, the result exists exactly when the sweeps fit in size entries |
| CIsomorphisms.IsomorphismsShape | NestIndex.c:944-1003 | the list starts with the relabelled word, holds no duplicates and has at most 2*size entries |
| CIsomorphisms.IsomorphismsSound | NestIndex.c:944-1003 | every entry is a relabelled rotation of the word or of its reverse |
| CIsomorphisms.IsomorphismsComplete | NestIndex.c:944-1003 | every relabelled rotation of the word and of its reverse is an entry |
| CIsomorphisms.IsomorphismsExceed | NestIndex.c:934 | a word whose only adjacent equal letters are its last and first, and whose reversal separates some pair of equal positions, has more than size isomorphisms |
| CIsomorphisms.IsomorphismsOverflow | NestIndex.c:934 | the DOW 1 2 3 4 2 4 3 1 has more than size isomorphisms |
| JsWords.Equal | reductions.js:273-285 | true exactly when the arrays are equal |
| JsWords.Alpha | reductions.js:292-306 | the alphabet is the distinct letters in order of first appearance |
| JsWords.PositionsSpec | reductions.js:311-317 | the indices are increasing, one per occurrence of the letter, and cover every occurrence |
| JsWords.Occurrences | reductions.js:311-317 | the loop returns the indices of the letter in ascending order |
| JsWords.SortSpec | reductions.js:331 | the sorted copy is ascending and a permutation of the word |
| JsWords.SortedCheck | reductions.js:330-338 | for an even-length word, the sorted copy splits into pairs of equal, distinct letters exactly when the word is a DOW |
| JsWords.IsDoubleOccurrence | reductions.js:322-340 | true exactly for DOWs: odd lengths and every other case are rejected |
| JsWords.Relabel | reductions.js:462-478 | for a DOW, the queue-driven pair loops write the canonical relabelling |
| JsWords.RemovePairKeep | reductions.js:451-457 | removing the two occurrences of a letter keeps the rest in order |
| JsWords.Remove | reductions.js:451-457 | the result splices out both occurrences, keeping the order, and is two shorter when the letter occurs twice |
| JsWords.RemoveSequences | reductions.js:433-446 | the loops splice out the two occurrences of every letter of every sequence, in turn |
| JsWords.RemoveAllKeep | reductions.js:433-446 | for sequences with disjoint letters, each occurring twice, the result is the word without those letters |
| JsSequences.LetterSequences | reductions.js:349-384 | for one letter, the type A and type B loops record the slices of its return span and repeat span |
| JsSequences.Sequences | reductions.js:345-387 | the result is the slices of the listed spans, in alphabet order |
| JsSequences.FoundSpec | reductions.js:345-387 | a span is listed exactly when it starts at a letter's first occurrence and is a return or repeat word there |
| JsSequences.FoundDistinct | reductions.js:349-384 | no two listed spans start at the same position |
| JsSequences.ReturnShape | reductions.js:355-367 | a type A sequence has even length and reads the same reversed |
| JsSequences.RepeatShape | reductions.js:374-384 | a type B sequence is a block of at least two letters followed by its copy |
| JsSequences.TauSequences | reductions.js:392-412 | the result is the slices of the listed spans that the maximality test keeps |
| JsSequences.TauMaximal | reductions.js:399-406 | an inner type A sequence is kept exactly when it cannot be widened by one letter on each side |
| JsSequences.TauDisjoint | reductions.js:392-412 | the kept sequences have pairwise disjoint letters, each occurring twice in the word |
| JsReductions.LetterInSequences | reductions.js:145-154 | the flag is true exactly when the letter is in some sequence |
| JsReductions.FreeLetters | reductions.js:139-158 | the drop list is the alphabet without the sequences' letters, in alphabet order |
| JsReductions.DropListSpec | reductions.js:139-172 | the drop list has no duplicates, holds exactly the letters in no tau sequence, and each occurs twice |
| JsReductions.SequenceChild | reductions.js:159-168 | the first child is the relabelled word without the sequences, with the word appended to its history and "1" to its path |
| JsReductions.DropEach | reductions.js:174-188 | each drop-list letter gives the relabelled removal, with history and a removal path entry |
| JsReductions.Step | reductions.js:129-191 | the step returns the children of the step definition |
| JsReductions.ChildrenSpec | reductions.js:129-191 | the children are the sequence removal (when there are sequences) followed by one removal per drop-list letter, in order |
| JsReductions.ChildrenShape | reductions.js:129-191 | each child is a canonical DOW shorter than its parent, with the parent's history extended; a non-empty word has children |
| JsReductions.DecimalRoundTrip | reductions.js:184 | the letter written into a removal path reads back as the same number |
| JsReductions.StepLevel | reductions.js:232-234 | the inner loop concatenates the children of every current word |
| JsReductions.GetNI | reductions.js:195-242 | the loop returns the nesting index of the definition |
| JsReductions.NestingIndexRange | reductions.js:202-208 | the index is 0 exactly for the empty word, and between 1 and half the length otherwise |
| JsReductions.NestingIndexLeast | reductions.js:210-240 | the level reached after the index's number of steps holds the empty word, and no earlier level does |
| JsEquivalencies.MoveLastToFront | reductions.js:253 | the last letter moves to the front and the others shift one place right |
| JsEquivalencies.CollectRotations | reductions.js:252-256 | after the loop the word is restored, and entry i is the relabelled rotation after i + 1 moves |
| JsEquivalencies.RemoveDuplicates | reductions.js:258-265 | the splicing loops keep each word at its first occurrence |
| JsEquivalencies.GetEquivalencies | reductions.js:248-267 | the word is returned unchanged, and the result is the rotation list without duplicates |
| JsEquivalencies.EquivalenciesSpec | reductions.js:248-267 | the equivalencies are distinct and are exactly the relabelled rotations |
| JsEquivalencies.EquivalenciesShape | reductions.js:248-267 | each equivalency is a canonical DOW as long as the word |
| JsEquivalencies.EquivalenciesFirst | reductions.js:252-256 | the first entry is the word with its last letter moved to the front, relabelled; the relabelled word itself is among the entries |
| JsEquivalencies.EquivalenciesRotation | reductions.js:248-267 | rotating the word first gives the same set of equivalencies |
| JsEquivalencies.EquivalenciesWithinIsomorphisms | reductions.js:248-267 | every JavaScript equivalency is among the C program's isomorphisms |
| Dow.CanonIdempotent | reductions.js:462-478 | relabelling a relabelled word changes nothing |
| Dow.CanonDow | NestIndex.c:841-863 | relabelling keeps a word a DOW and back; a relabelled DOW uses the letters 1..size/2 |
| Dow.KeepDow | reductions.js:433-457 | removing a set of letters from a DOW leaves a DOW |
| Dow.DedupSpec | reductions.js:292-306 | the alphabet has no duplicates and holds exactly the word's letters |

## Left out

- Allocation and exits (`malloc`, `free`, `exit` on allocation failure): memory is not modelled; an allocation is assumed to succeed.
- `main`, `usage_message`, `get_word`, `print_word`, `file_print_word`: command-line parsing and output are I/O.
- C `occurrences`: no core function calls it.
- Fixed-width integers (`unsigned short` letters, `short` counters and differences): letters and counts are unbounded naturals, so wrap-around for very large letters or very long words is not modelled.
- `perform_reduction`, `write`, `write_reduction`: these read the page and write to it (DOM I/O).
- `sigma_sequences` and the `type` argument of JS `step` and `get_NI`: the script always passes `"tau"`, so only tau sequences are modelled.
- JsWords.IsDoubleOccurrence: the JavaScript `sort` compares letters as strings; the model sorts numerically. Either order puts equal letters next to each other, which is all the pair test relies on.
- JsSequences.Sequences: reads past the end of the array (`undefined`) are modelled as an absent value; inputs must be DOWs, as `perform_reduction` checks before it calls the reduction.
- JsSequences.TauSequences, JsReductions.Step, JsReductions.GetNI, JsEquivalencies.GetEquivalencies: these require a DOW, because the script validates the word before calling them.
- CWords.Relabel: requires a DOW. On any other word the C loops leave slots of the fresh array unwritten, so the result is memory that was never written and that the source does not determine. Such words do reach it: `get_NI` lets odd words like `1 1 2 2 3` through its test and steps them, and `step` then relabels the single-letter word `3`.
- JsWords.Relabel: requires a DOW. On other words the JS loop leaves unpaired letters with their old values; every JS caller passes a DOW (the word is validated before reduction, and children of DOWs are DOWs).
- CWords.RemoveLtr: requires the letter to occur twice, because the C loops run off the array otherwise; step only passes letters of the word.
- CWords.GetReverse, CIsomorphisms.GetIsomorphisms, CIsomorphisms.GetIsomorphismsAsWritten, CIsomorphisms.SweepLoop: these require a DOW because each relabels its words with `relabel`, which on other words returns slots it never wrote. The C program does reach them with other words: the `-i` option of `main` (NestIndex.c:115-126) checks only that the characters are digits or punctuation before it calls `get_isomorphisms`, as with `-i 123`. The model says nothing about those inputs.
- CReducer.Step, CDetector.GetRepeatReturnWords: these require a DOW. On other words `get_repeat_return_words` can record more subwords than its size/2 slots (the loops of `1 1 1 1` give three), and `step` relabels words that are not DOWs, so the C code writes past its arrays or reads memory it never wrote. `get_NI` as written does step odd words its test accepts (see Findings); the model steps only words that pass the corrected test.
- JsWords.Relabel: the unused `old_letters` alphabet is not computed.
- JsEquivalencies.EquivalenciesFirst: it states only the first entry (one move of the last letter to the front); the later entries are stated by JsEquivalencies.CollectRotations.
- CEngine.GetNI: it validates with the corrected test CWords.CheckDow (see Findings), not with the as-written `is_double_occurrence`.

## Findings

| source | as written | input that shows it | evidently intended | confidence | as-written member | corrected member |
|---|---|---|---|---|---|---|
| NestIndex.c:563-583 | `is_double_occurrence` checks only the first size/2 entries of the letter table, so an odd-length word can pass | `1 1 2` (size 3: only letter 1 is checked, and it occurs twice) | reject every word that is not a DOW, including every odd-length word | not executed | CWords.OddWordAccepted | CWords.CheckDow |
| NestIndex.c:934 | `get_isomorphisms` allocates `size` slots, but the rotations and reversals together can give up to 2*size distinct words, written past the end | `1 2 3 4 2 4 3 1` (size 8, more than 8 isomorphisms) | allocate 2*size slots | not executed | CIsomorphisms.IsomorphismsOverflow | CIsomorphisms.GetIsomorphisms |
