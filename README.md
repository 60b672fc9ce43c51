# Tundra core, modelled in Dafny

Tundra is a Java library of helpers for webMethods Integration Server. This project models
the parts of it that can be stated without the server:

- **The path-addressed document** (`IData`). A document is an ordered list of key/value
  entries. Keys may repeat, and a value is null, a string, a nested document or an array.
  `IDataHelper` reads and writes it through keys such as `a/b(2)` and `a[-1]`:
  - `a/b` descends into a nested document;
  - `k(n)` picks the n-th occurrence of a key;
  - `k[i]` indexes an array, with a negative index counting from the end.

  The operations are get, put, drop, size, remove, rename, copy, clear and a sort by several
  criteria. `IDataHelper` itself is not part of this model, so its behaviour is the one its
  test class pins down:
  - `document_path.dfy` parses keys;
  - `document_model.dfy` gives the meaning of each operation;
  - `document_properties.dfy` proves how the operations relate;
  - `document_helper.dfy` holds the in-place `Document` class and its methods;
  - `document_sort.dfy` holds the sort;
  - `document_examples.dfy` holds the test scenarios.
- **The copy-on-write wrapper** (`copy_on_write.dfy`). `CopyOnWriteIDataMap` shares the
  wrapped document until the first change and then takes a private copy. Nested documents
  read through it come back wrapped in turn, so writes never reach the original. The test
  scenario is modelled as a `while` loop over a cursor.
- **ObjectHelper** (`object_helper.dfy`, over `ordered_set.dfy`, which models
  `LinkedHashSet`):
  - null-aware equality, `coalesce`, `arrayify` and `listify`;
  - the ancestor closure of a class over an abstract class hierarchy;
  - the common ancestors of several classes, with the running set refilled by a class's own
    ancestors whenever it is empty, exactly as the source does;
  - the nearest common ancestor;
  - the class set of some objects;
  - `toClassArray`, and the overloads over class names and class objects, one of which
    answers `java.lang.Class` for any call (see Findings).
- **Format** (`message_format.dfy`):
  - the constructor's checks for the document, `name` and `recognize/ref`;
  - `enabled` defaults to true and is written back into the document;
  - recognition;
  - name-based equals, hashCode and compareTo;
  - the `of` and `toIDataArray` conversions.
- **ThreadHelper** (`thread_helper.dfy`): priority clamping, and the element-wise
  `toIDataArray`.
- **ClassHelper** (`class_helper.dfy`): `forName` over an array of names, and the array
  class name that `getArrayClass` looks up.
- **IntegerHelper.parse** (`integer_helper.dfy`): the radix parser as its test fixes it.
  `java_lang.dfy` holds the `String.compareTo`, `String.hashCode` and 32-bit `int` facts
  that Format relies on.

Where the Java code changes a document in place, the model is a class with `modifies`
clauses:
- `DocumentHelper.Document`;
- the copy-on-write `Table`, `Wrapper` and `Cursor`;
- `MessageFormat.New`, which writes `enabled` back.

Loops in the source are methods with loop invariants:
- `coalesce`;
- the do-while of `getAncestors` and its inner for loop;
- the common-ancestor loop;
- `toClassSet`;
- `toClassArray`;
- `Format.of(Collection)`;
- both `toIDataArray` methods;
- `ClassHelper.forName`.

`coalesce` is proved against what it promises: the first non-null argument, and null
exactly when there is none. Every other loop method is proved equal to a specification
function, and the properties of that function are proved as lemmas. For `Format.of(Collection)`
that function is `RunOf`, the loop over the non-null documents, reached item by item through
`RunUpTo`.

Abstracted as parameters:
- the host class hierarchy (superclass, interfaces and a depth that bounds it);
- `Class.forName` (a partial lookup);
- `BooleanHelper.parse` (a partial parser);
- the recognition condition (an uninterpreted predicate);
- `ThreadHelper.toIData` (an uninterpreted function).

## Model

| member | source | states |
|---|---|---|
| IntegerHelper.ParseTestCases | src/test/java/permafrost/tundra/math/IntegerHelperTest.java:34-51 | parse(null) is null, parse("test") fails, parse("123") is 123 and parse("FF", 16) is 255 |
| IntegerHelper.Parse | src/test/java/permafrost/tundra/math/IntegerHelperTest.java:34-51 | parse of optional text in a radix; stated by ParseOk, ParseRejectsNonDigit, ParseEmit, ParseDigits and ParseTestCases |
| IntegerHelper.ParseOk | src/test/java/permafrost/tundra/math/IntegerHelperTest.java:43-51 | a successful parse has a valid radix, a non-empty all-digit magnitude, and the signed value of those digits |
| IntegerHelper.ParseRejectsNonDigit | src/test/java/permafrost/tundra/math/IntegerHelperTest.java:38-41 | any character that is not a digit of the radix makes parse fail |
| IntegerHelper.ParseEmit | src/test/java/permafrost/tundra/math/IntegerHelperTest.java:43-51 | every integer written in any radix from 2 to 36 parses back to itself |
| IntegerHelper.ToDigitsValue | src/test/java/permafrost/tundra/math/IntegerHelperTest.java:43-51 | the digit string of a natural number has that number as its value |
| IntegerHelper.DigitsValueSnoc | src/test/java/permafrost/tundra/math/IntegerHelperTest.java:43-51 | one more digit multiplies the value by the radix and adds that digit |
| IntegerHelper.TwoDigitsValue | src/test/java/permafrost/tundra/math/IntegerHelperTest.java:43-51 | a two-digit string is all digits and has value first*radix + second |
| IntegerHelper.ParseDigits | src/test/java/permafrost/tundra/math/IntegerHelperTest.java:43-51 | an unsigned non-empty digit string parses to its value |
| IntegerHelper.ToDigits | src/test/java/permafrost/tundra/math/IntegerHelperTest.java:43-51 | a digit string is non-empty, holds only digits of the radix and starts with no sign |
| JavaLang.CompareTo | src/main/java/permafrost/tundra/message/format/Format.java:168-170 | String.compareTo is zero exactly when the two strings are equal |
| JavaLang.CompareToAntisymmetric | src/main/java/permafrost/tundra/message/format/Format.java:168-170 | compareTo(a, b) is the negation of compareTo(b, a) |
| JavaLang.CompareToTransitive | src/main/java/permafrost/tundra/message/format/Format.java:168-170 | compareTo is transitive for "at most" |
| JavaLang.HashCode | src/main/java/permafrost/tundra/message/format/Format.java:157-159 | String.hashCode is a 32-bit int |
| JavaLang.HashCodeIsPolynomial | src/main/java/permafrost/tundra/message/format/Format.java:157-159 | the hash is the polynomial sum of s[i]*31^(n-1-i), reduced modulo 2^32 |
| JavaLang.Wrap32 | src/main/java/permafrost/tundra/message/format/Format.java:157-159 | int truncation lands in the int range and is congruent to its input modulo 2^32 |
| DocumentPath.Split | src/test/java/permafrost/tundra/data/IDataHelperTest.java:298-306 | a key splits at "/" into non-empty-count parts with no "/" inside them |
| DocumentPath.Parse | src/test/java/permafrost/tundra/data/IDataHelperTest.java:298-400 | parses a key into steps; stated by ParseRender, ParseRenderStep, ParseClosed, TrailingDigits and SegmentDigits |
| DocumentPath.JoinSplit | src/test/java/permafrost/tundra/data/IDataHelperTest.java:298-306 | joining the parts of a split key gives back the key |
| DocumentPath.SplitJoin | src/test/java/permafrost/tundra/data/IDataHelperTest.java:298-306 | splitting slash-free parts joined with "/" gives back the parts |
| DocumentPath.ParseRenderStep | src/test/java/permafrost/tundra/data/IDataHelperTest.java:309-400 | a step "k", "k(n)" or "k[i]" written out parses back to the same step |
| DocumentPath.ParseRender | src/test/java/permafrost/tundra/data/IDataHelperTest.java:298-400 | a fully qualified key written out from a path parses back to that path |
| DocumentPath.TrailingDigits | src/test/java/permafrost/tundra/data/IDataHelperTest.java:344-364 | the counted suffix is made of decimal digits and the character before it is not a digit |
| DocumentPath.SegmentDigits | src/test/java/permafrost/tundra/data/IDataHelperTest.java:344-364 | the decimal digits written after a non-digit are exactly the counted suffix, and they read back as the number |
| DocumentPath.ParseClosed | src/test/java/permafrost/tundra/data/IDataHelperTest.java:309-364 | a segment ending in ")" is read as an occurrence and one ending in "]" as an index, from the text before it |
| DocumentPath.ReadNegativeIndex | src/test/java/permafrost/tundra/data/IDataHelperTest.java:309-322 | "k[-n]" reads as index -n of k |
| DocumentModel.Occurrence | src/test/java/permafrost/tundra/data/IDataHelperTest.java:344-364 | the n-th occurrence of a key exists exactly when the key occurs more than n times; if so it is the entry holding the n-th value of that key |
| DocumentModel.OccurrenceShift | src/test/java/permafrost/tundra/data/IDataHelperTest.java:344-364 | an occurrence found in the tail of a document is one place further on in the whole document |
| DocumentModel.Index | src/test/java/permafrost/tundra/data/IDataHelperTest.java:309-341 | a negative array index counts from the end; the index is in bounds exactly when -length <= i < length |
| DocumentModel.Values | src/test/java/permafrost/tundra/data/IDataHelperTest.java:167-179 | a key has no more values than the document has entries |
| DocumentModel.Nulls | src/test/java/permafrost/tundra/data/IDataHelperTest.java:535-550 | the padding a put beyond the last occurrence inserts is n null entries of that key |
| DocumentModel.Get | src/test/java/permafrost/tundra/data/IDataHelperTest.java:286-400 | get: the value at a path, or an error; its meaning is stated by GetOccurrence, GetArrayIndex, GetDescend and GetPut |
| DocumentModel.Size | src/test/java/permafrost/tundra/data/IDataHelperTest.java:117-211 | size at a path; stated by SizeDescend, SizeAfterPutOccurrence, SizeAfterPutNth, SizeThroughPut and SizeAfterPutKey |
| DocumentModel.Put | src/test/java/permafrost/tundra/data/IDataHelperTest.java:497-550 | put at a path; stated by GetPut, PutOtherKeys, PutOccurrenceValues, PutWithoutIndexSucceeds and PutIndexBounds |
| DocumentModel.Drop | src/test/java/permafrost/tundra/data/IDataHelperTest.java:403-494 | drop at a path; stated by DropOccurrenceValues, DropIndex, DropAddressed and DropOtherKeys |
| DocumentModel.Remove | src/test/java/permafrost/tundra/data/IDataHelperTest.java:213-231 | remove: the value at a path and the document without it; stated by RemoveKey |
| DocumentModel.Copy | src/test/java/permafrost/tundra/data/IDataHelperTest.java:587-617 | copy from a source path to a target path; stated by CopyKey and CopyNullSource |
| DocumentModel.Rename | src/test/java/permafrost/tundra/data/IDataHelperTest.java:553-584 | rename of a source path to a target path; stated by RenameKey |
| DocumentModel.Retain | src/test/java/permafrost/tundra/data/IDataHelperTest.java:259-283 | clear with preserved keys; stated by RetainValues and RetainKeys |
| DocumentProperties.GetOccurrence | src/test/java/permafrost/tundra/data/IDataHelperTest.java:344-364 | k(n) reads the n-th value of k, or null when there is no such occurrence; a bare k reads k(0) |
| DocumentProperties.GetArrayIndex | src/test/java/permafrost/tundra/data/IDataHelperTest.java:309-341 | k[i] reads item i, a negative i counting from the end, and fails with the index and length outside -length..length-1 |
| DocumentProperties.GetDescend | src/test/java/permafrost/tundra/data/IDataHelperTest.java:298-306 | a/rest reads rest inside the document at a, and null when a holds no document |
| DocumentProperties.LocateSameValues | src/test/java/permafrost/tundra/data/IDataHelperTest.java:286-364 | one path step reads the same in two documents that hold the same values for its key |
| DocumentProperties.GetSameHead | src/test/java/permafrost/tundra/data/IDataHelperTest.java:286-306 | a whole path reads the same in two documents that hold the same values for its first key |
| DocumentProperties.GetPut | src/test/java/permafrost/tundra/data/IDataHelperTest.java:497-550 | after a successful put, get on the same key returns the value that was put |
| DocumentProperties.PutOtherKeys | src/test/java/permafrost/tundra/data/IDataHelperTest.java:497-550 | a put leaves the values of every other top-level key unchanged |
| DocumentProperties.PutWithoutIndexSucceeds | src/test/java/permafrost/tundra/data/IDataHelperTest.java:504-518 | a put whose key holds no array index always succeeds |
| DocumentProperties.PutIndexBounds | src/test/java/permafrost/tundra/data/IDataHelperTest.java:521-533 | put at an array index fails exactly below -length; in range it replaces that item; past the end it pads with nulls |
| DocumentProperties.PutOccurrenceValues | src/test/java/permafrost/tundra/data/IDataHelperTest.java:535-550 | put at occurrence n replaces the n-th value, or pads the key with nulls up to n; other keys are unchanged |
| DocumentProperties.ValueOfPutOccurrence | src/test/java/permafrost/tundra/data/IDataHelperTest.java:535-542 | after a put at occurrence n, occurrence n holds the new value |
| DocumentProperties.LocatePutStep | src/test/java/permafrost/tundra/data/IDataHelperTest.java:497-550 | putting one step and then locating it yields the value that was put |
| DocumentProperties.DropOccurrenceValues | src/test/java/permafrost/tundra/data/IDataHelperTest.java:481-494 | drop of occurrence n removes exactly the n-th value of the key; dropping past the last occurrence changes nothing |
| DocumentProperties.DropIndex | src/test/java/permafrost/tundra/data/IDataHelperTest.java:408-479 | drop at an array index fails with IndexOutOfBounds exactly when out of range; otherwise it removes that one item and leaves other keys alone |
| DocumentProperties.DropAddressed | src/test/java/permafrost/tundra/data/IDataHelperTest.java:428-459 | drop along a path acts on the document its parent path reaches; a missing parent is a no-op |
| DocumentProperties.DropOtherKeys | src/test/java/permafrost/tundra/data/IDataHelperTest.java:428-459 | a drop along a nested path leaves every other top-level key's values unchanged |
| DocumentProperties.SizeDescend | src/test/java/permafrost/tundra/data/IDataHelperTest.java:181-211 | size of a fully qualified key is the size of the rest of the path within the child document |
| DocumentProperties.SizeAfterPutOccurrence | src/test/java/permafrost/tundra/data/IDataHelperTest.java:197-211 | after a put at key(n), the size of key(n) is 1 |
| DocumentProperties.SizeAfterPutNth | src/test/java/permafrost/tundra/data/IDataHelperTest.java:197-211 | after a put at a top-level k(n), the size of k(n) is 1 |
| DocumentProperties.SizeThroughPut | src/test/java/permafrost/tundra/data/IDataHelperTest.java:181-211 | after a put along a longer path, its size is the size of the rest of the path in the new child document |
| DocumentProperties.SizeAfterPutKey | src/test/java/permafrost/tundra/data/IDataHelperTest.java:145-179 | after a put at a key, its size is its old count (at least 1) and the document grows only when the key was absent |
| DocumentProperties.CopyKey | src/test/java/permafrost/tundra/data/IDataHelperTest.java:613-617 | copy keeps the source, gives the target the source value, grows the document only when the target was absent, and leaves every key but the target with the values it had |
| DocumentProperties.CopyNullSource | src/test/java/permafrost/tundra/data/IDataHelperTest.java:587-591 | copying from a key whose value is null changes nothing |
| DocumentProperties.RenameKey | src/test/java/permafrost/tundra/data/IDataHelperTest.java:579-584 | rename gives the target the first source value, takes that occurrence from the source and keeps its later ones, grows the document only when the target was absent less the one entry it moves, and leaves every other key with the values it had |
| DocumentProperties.RemoveKey | src/test/java/permafrost/tundra/data/IDataHelperTest.java:213-231 | remove returns the first value of the key (null when absent) and drops that one entry |
| DocumentProperties.RetainValues | src/test/java/permafrost/tundra/data/IDataHelperTest.java:269-283 | clear with preserved keys keeps the values of preserved keys and removes every other key |
| DocumentProperties.RetainKeys | src/test/java/permafrost/tundra/data/IDataHelperTest.java:269-283 | clear with preserved keys never grows the document and keeps only preserved keys |
| DocumentProperties.ValuesConcat | src/test/java/permafrost/tundra/data/IDataHelperTest.java:117-179 | the values of a key in two concatenated documents are the values in each, in order |
| DocumentHelper.Size | src/test/java/permafrost/tundra/data/IDataHelperTest.java:117-143 | size of a null document is 0, otherwise its number of entries |
| DocumentHelper.Keys | src/test/java/permafrost/tundra/data/IDataHelperTest.java:32-41 | the keys of a document, one per entry, in order |
| DocumentHelper.GetKeys | src/test/java/permafrost/tundra/data/IDataHelperTest.java:32-41 | getKeys of null is empty, otherwise one key per entry in order |
| DocumentHelper.SizeAt | src/test/java/permafrost/tundra/data/IDataHelperTest.java:145-179 | size(document, key) is 0 for null and otherwise the number of occurrences of a simple key |
| DocumentHelper.GetValue | src/test/java/permafrost/tundra/data/IDataHelperTest.java:286-296 | get on a null document or a null key is null; a simple key reads its first occurrence |
| DocumentHelper.PutValue | src/test/java/permafrost/tundra/data/IDataHelperTest.java:497-550 | put updates the document in place, or returns a new document for null; an error leaves it unchanged |
| DocumentHelper.DropValue | src/test/java/permafrost/tundra/data/IDataHelperTest.java:403-494 | drop on null is a no-op; otherwise the document becomes the drop of the parsed key, or stays unchanged on error |
| DocumentHelper.RemoveValue | src/test/java/permafrost/tundra/data/IDataHelperTest.java:213-231 | remove on null returns null; otherwise it returns the removed value and the document loses it |
| DocumentHelper.RenameValue | src/test/java/permafrost/tundra/data/IDataHelperTest.java:553-584 | rename with a null document, a null key or equal keys is a no-op; otherwise the document becomes the rename of the parsed keys |
| DocumentHelper.CopyValue | src/test/java/permafrost/tundra/data/IDataHelperTest.java:587-617 | copy with a null document, a null key or equal keys is a no-op; otherwise the document becomes the copy of the parsed keys |
| DocumentHelper.Clear | src/test/java/permafrost/tundra/data/IDataHelperTest.java:259-283 | clear keeps only the entries whose key is preserved, in order; null is a no-op |
| DocumentHelper.RetainAll | src/test/java/permafrost/tundra/data/IDataHelperTest.java:269-276 | preserving every key of a document changes nothing |
| DocumentHelper.RetainSuperset | src/test/java/permafrost/tundra/data/IDataHelperTest.java:269-283 | preserving a superset of the keys changes nothing |
| DocumentHelper.Document.Empty | src/test/java/permafrost/tundra/data/IDataHelperTest.java:23-29 | a new document has no entries |
| DocumentHelper.Document.Of | src/test/java/permafrost/tundra/data/IDataHelperTest.java:23-29 | a document built from entries holds exactly those entries |
| DocumentExamples.ParseOccurrenceExample | src/test/java/permafrost/tundra/data/IDataHelperTest.java:344-354 | "a(2)" addresses occurrence 2 of a |
| DocumentExamples.ParseIndexExample | src/test/java/permafrost/tundra/data/IDataHelperTest.java:309-322 | "a[1]" addresses item 1 of the array a |
| DocumentExamples.ParseNegativeIndexExample | src/test/java/permafrost/tundra/data/IDataHelperTest.java:309-322 | "a[-1]" addresses the last item of the array a |
| DocumentExamples.ParseNestedExample | src/test/java/permafrost/tundra/data/IDataHelperTest.java:383-400 | "a/b(2)" addresses occurrence 2 of b inside a |
| DocumentExamples.PutWithPath | src/test/java/permafrost/tundra/data/IDataHelperTest.java:515-518 | put "a/b" then get "a/b" returns the value |
| DocumentExamples.PutWithArrayIndex | src/test/java/permafrost/tundra/data/IDataHelperTest.java:521-526 | put "z[0]" on a missing key creates a one-element array |
| DocumentExamples.PutArrayMissing | src/test/java/permafrost/tundra/data/IDataHelperTest.java:521-526 | put at k[0] on any document without k creates the one-element array under k |
| DocumentExamples.PutWithPathAndArrayIndex | src/test/java/permafrost/tundra/data/IDataHelperTest.java:528-533 | put "a/b[0]" creates a one-element array at a/b |
| DocumentExamples.PutWithIndex | src/test/java/permafrost/tundra/data/IDataHelperTest.java:535-542 | put "a(2)" gives five entries, and a holds 1, null, 4 |
| DocumentExamples.PutNthBeyond | src/test/java/permafrost/tundra/data/IDataHelperTest.java:535-542 | put at k(n) past the last occurrence of k pads k with nulls, appends the value and grows the document by the padding plus one |
| DocumentExamples.PutWithPathAndIndex | src/test/java/permafrost/tundra/data/IDataHelperTest.java:544-550 | put "y/z(2)" gives four entries; y/z(0) and y/z(1) are null, y/z(2) is 4 |
| DocumentExamples.PutNthIntoEmpty | src/test/java/permafrost/tundra/data/IDataHelperTest.java:544-550 | put at k2(n) into an empty document leaves k2 holding n nulls and then the value |
| DocumentExamples.PutNthIntoEmptyAt | src/test/java/permafrost/tundra/data/IDataHelperTest.java:544-550 | in that document, occurrence i of k2 is the value at i == n and null otherwise |
| DocumentExamples.PutNestedMissing | src/test/java/permafrost/tundra/data/IDataHelperTest.java:544-550 | put at k/k2(n) with k missing adds one entry: k holding the new nested document |
| DocumentExamples.PutNestedMissingReads | src/test/java/permafrost/tundra/data/IDataHelperTest.java:544-550 | afterwards k/k2(i) reads the value at i == n and null for every other i |
| DocumentExamples.DropWithArrayIndex | src/test/java/permafrost/tundra/data/IDataHelperTest.java:408-419 | drop "a[1]" of [1, 2, 3] leaves [1, 3] |
| DocumentExamples.DropNestedOccurrence | src/test/java/permafrost/tundra/data/IDataHelperTest.java:428-444 | drop "a/b(2)" of b = 1, 2, 3, 4 leaves a child of three entries, the one b(2) dropped, with 4 at a/b(2) |
| DocumentExamples.DropTwoSteps | src/test/java/permafrost/tundra/data/IDataHelperTest.java:428-444 | drop of a/b reads back through a as the drop of b inside the document held by a |
| DocumentExamples.GetWithArrayIndex | src/test/java/permafrost/tundra/data/IDataHelperTest.java:309-341 | get "a[-1]" and "a[-3]" read 3 and 1; "a[3]" and "a[-4]" fail with the index and length |
| DocumentExamples.DropWithIndexOutOfBounds | src/test/java/permafrost/tundra/data/IDataHelperTest.java:481-494 | drop "a(2)" when a occurs twice changes nothing |
| DocumentExamples.RenameAndCopy | src/test/java/permafrost/tundra/data/IDataHelperTest.java:579-617 | rename c to d keeps three entries with c gone; copy c to d gives four entries with both |
| DocumentExamples.ClearWithMissingKey | src/test/java/permafrost/tundra/data/IDataHelperTest.java:278-283 | clear preserving "a" and a missing "z" leaves only a |
| DocumentExamples.RecordKeys | src/test/java/permafrost/tundra/data/IDataHelperTest.java:620-656 | each record sorts by its string as text and its integer as a parsed number |
| DocumentExamples.CompareRecords | src/test/java/permafrost/tundra/data/IDataHelperTest.java:653-656 | records compare by their string first and their integer second |
| DocumentExamples.ParseNumbers | src/test/java/permafrost/tundra/data/IDataHelperTest.java:620-652 | "25", "26" and "99" parse to their values |
| DocumentExamples.SortThree | src/test/java/permafrost/tundra/data/IDataHelperTest.java:658-671 | three documents that compare z < x < y sort as z, x, y |
| DocumentExamples.SortTwo | src/test/java/permafrost/tundra/data/IDataHelperTest.java:658-671 | two documents that compare in the wrong order are swapped |
| DocumentExamples.InsertBetween | src/test/java/permafrost/tundra/data/IDataHelperTest.java:658-671 | a document between the two of a sorted pair is inserted between them |
| DocumentExamples.SortWithMultipleKeys | src/test/java/permafrost/tundra/data/IDataHelperTest.java:620-672 | the records (a, 26), (z, 99), (a, 25) sort as (a, 25), (a, 26), (z, 99) |
| DocumentSort.Sort | src/test/java/permafrost/tundra/data/IDataHelperTest.java:620-672 | sort returns a permutation of its input that is ordered by the criteria |
| DocumentSort.Compare | src/test/java/permafrost/tundra/data/IDataHelperTest.java:620-672 | the comparison of two records over several criteria; stated by CompareAntisymmetric and CompareTransitive |
| DocumentSort.KeyCompare | src/test/java/permafrost/tundra/data/IDataHelperTest.java:620-656 | the comparison of two sort keys; stated by KeyCompareZero, KeyCompareAntisymmetric and KeyCompareTransitive |
| DocumentSort.Insert | src/test/java/permafrost/tundra/data/IDataHelperTest.java:620-672 | inserting into a sorted list keeps it sorted and adds exactly that document |
| DocumentSort.InsertBehind | src/test/java/permafrost/tundra/data/IDataHelperTest.java:620-672 | inserting behind the head keeps the head first, the list sorted and its contents the old ones plus the new document |
| DocumentSort.SortStep | src/test/java/permafrost/tundra/data/IDataHelperTest.java:620-672 | sorting a list inserts its head into the sorted tail |
| DocumentSort.InsertBefore | src/test/java/permafrost/tundra/data/IDataHelperTest.java:620-672 | a document no greater than the head of a sorted list goes in front |
| DocumentSort.InsertAfter | src/test/java/permafrost/tundra/data/IDataHelperTest.java:620-672 | a document greater than the head of a sorted list goes into the sorted tail, behind the head |
| DocumentSort.CompareAntisymmetric | src/test/java/permafrost/tundra/data/IDataHelperTest.java:653-656 | comparing by several criteria is antisymmetric |
| DocumentSort.CompareTransitive | src/test/java/permafrost/tundra/data/IDataHelperTest.java:653-656 | comparing by several criteria is transitive |
| DocumentSort.KeyCompareZero | src/test/java/permafrost/tundra/data/IDataHelperTest.java:653-656 | two sort keys compare equal exactly when they are the same |
| DocumentSort.KeyCompareAntisymmetric | src/test/java/permafrost/tundra/data/IDataHelperTest.java:653-656 | key comparison is antisymmetric |
| DocumentSort.KeyCompareTransitive | src/test/java/permafrost/tundra/data/IDataHelperTest.java:653-656 | key comparison is transitive |
| DocumentSort.KeyOf | src/test/java/permafrost/tundra/data/IDataHelperTest.java:653-656 | a text key is the string value of the criterion key; a whole-number key is its parsed value |
| CopyOnWrite.Wrapper.Of | src/test/java/permafrost/tundra/data/CopyOnWriteIDataMapTest.java:45 | wrapping a document shares its entries without copying them |
| CopyOnWrite.Wrapper.View | src/test/java/permafrost/tundra/data/CopyOnWriteIDataMapTest.java:45-75 | what the wrapper shows: the source until the first change, its own copy after; Wrapper.Of, Wrapper.Detach, Wrapper.InsertAt and Scenario state it |
| CopyOnWrite.Wrapper.Detach | src/test/java/permafrost/tundra/data/CopyOnWriteIDataMapTest.java:55-69 | the first change takes a private copy with the same contents; the wrapped document is unchanged |
| CopyOnWrite.Wrapper.ValueAt | src/test/java/permafrost/tundra/data/CopyOnWriteIDataMapTest.java:51-57 | reading a nested document returns a new wrapper around it and stores that wrapper in the copy; other values are returned as they are |
| CopyOnWrite.Wrapper.Get | src/test/java/permafrost/tundra/data/CopyOnWriteIDataMapTest.java:51-71 | get returns the first entry of the key (wrapped if a document) or nothing |
| CopyOnWrite.Wrapper.InsertAt | src/test/java/permafrost/tundra/data/CopyOnWriteIDataMapTest.java:60-67 | inserting puts exactly one entry at the position and never touches the wrapped document |
| CopyOnWrite.Cursor.Next | src/test/java/permafrost/tundra/data/CopyOnWriteIDataMapTest.java:55 | next advances one position and says whether one is left |
| CopyOnWrite.Cursor.Key | src/test/java/permafrost/tundra/data/CopyOnWriteIDataMapTest.java:56 | getKey: the key at the cursor's position in the wrapper's view; Round and Scenario use it |
| CopyOnWrite.Cursor.Value | src/test/java/permafrost/tundra/data/CopyOnWriteIDataMapTest.java:57 | the cursor value is the wrapper value at its position |
| CopyOnWrite.Cursor.InsertAfter | src/test/java/permafrost/tundra/data/CopyOnWriteIDataMapTest.java:60-67 | insertAfter inserts one entry after the position and moves onto it |
| CopyOnWrite.Lift | src/test/java/permafrost/tundra/data/CopyOnWriteIDataMapTest.java:45 | a fresh wrapper shows every entry of the source as shared |
| CopyOnWrite.FirstIndex | src/test/java/permafrost/tundra/data/CopyOnWriteIDataMapTest.java:51-71 | the first entry with the key, or the length when there is none |
| CopyOnWrite.StageStep | src/test/java/permafrost/tundra/data/CopyOnWriteIDataMapTest.java:54-69 | each loop round inserts d<i> right after the visited entry |
| CopyOnWrite.StageVisited | src/test/java/permafrost/tundra/data/CopyOnWriteIDataMapTest.java:54-69 | round i visits a, b and child in turn |
| CopyOnWrite.StageChild | src/test/java/permafrost/tundra/data/CopyOnWriteIDataMapTest.java:71 | after the loop, child is the fifth entry of the wrapper |
| CopyOnWrite.Round | src/test/java/permafrost/tundra/data/CopyOnWriteIDataMapTest.java:55-69 | one loop round reaches the next stage; the child wrapper grows only in the child round |
| CopyOnWrite.Scenario | src/test/java/permafrost/tundra/data/CopyOnWriteIDataMapTest.java:36-75 | the original document and child keep sizes 3 and 1; the wrapper and its child view reach sizes 6 and 2 |
| OrderedSet.Add | src/main/java/permafrost/tundra/lang/ObjectHelper.java:331 | LinkedHashSet.add: appends an element that is absent and keeps insertion order |
| OrderedSet.AddAll | src/main/java/permafrost/tundra/lang/ObjectHelper.java:324-332 | LinkedHashSet.addAll: the union, with the receiver as a prefix |
| OrderedSet.RetainAll | src/main/java/permafrost/tundra/lang/ObjectHelper.java:262 | LinkedHashSet.retainAll: keeps exactly the receiver's elements that are also in the argument, in the receiver's order, every occurrence of each, and no duplicates when the receiver had none |
| OrderedSet.RetainStep | src/main/java/permafrost/tundra/lang/ObjectHelper.java:262 | keeping or dropping the head of the receiver extends each property of retainAll from its tail to the whole receiver |
| OrderedSet.SubsequenceReflexive | src/main/java/permafrost/tundra/lang/ObjectHelper.java:262 | a sequence keeps its own order |
| OrderedSet.SubsequenceTransitive | src/main/java/permafrost/tundra/lang/ObjectHelper.java:258-264 | a subsequence of a subsequence is one, so repeated retainAll keeps the first receiver's order |
| OrderedSet.AddAllConcat | src/main/java/permafrost/tundra/lang/ObjectHelper.java:329-333 | adding two lists is adding one after the other |
| OrderedSet.AddAllDistinct | src/main/java/permafrost/tundra/lang/ObjectHelper.java:318-324 | adding distinct fresh elements appends them all |
| OrderedSet.AddAllPresent | src/main/java/permafrost/tundra/lang/ObjectHelper.java:324 | adding elements already present changes nothing |
| ObjectHelper.Equal | src/main/java/permafrost/tundra/lang/ObjectHelper.java:62-75 | two nulls are equal; null and non-null are not; two documents compare as documents, anything else with equals |
| ObjectHelper.EqualSymmetric | src/main/java/permafrost/tundra/lang/ObjectHelper.java:62-75 | equal is symmetric when the underlying comparisons are |
| ObjectHelper.EqualReflexive | src/main/java/permafrost/tundra/lang/ObjectHelper.java:62-75 | equal is reflexive when the underlying comparisons are |
| ObjectHelper.Coalesce | src/main/java/permafrost/tundra/lang/ObjectHelper.java:84-97 | coalesce returns the first non-null argument, and null exactly when all are null or there are none |
| ObjectHelper.Arrayify | src/main/java/permafrost/tundra/lang/ObjectHelper.java:155-166 | arrayify of null is null; an array is returned as it is; anything else becomes a one-element array |
| ObjectHelper.Listify | src/main/java/permafrost/tundra/lang/ObjectHelper.java:176-186 | listify is the list of the arrayified object, empty for null |
| ObjectHelper.ArrayifyIdempotent | src/main/java/permafrost/tundra/lang/ObjectHelper.java:155-166 | arrayifying an arrayified object again changes nothing |
| ObjectHelper.Round | src/main/java/permafrost/tundra/lang/ObjectHelper.java:326-333 | one pass collects distinct parents |
| ObjectHelper.RoundMembers | src/main/java/permafrost/tundra/lang/ObjectHelper.java:329-333 | a class is collected in one pass exactly when it is a superclass or interface of a class of the previous pass |
| ObjectHelper.NextPass | src/main/java/permafrost/tundra/lang/ObjectHelper.java:326-333 | the inner for loop computes exactly one pass |
| ObjectHelper.RoundSnoc | src/main/java/permafrost/tundra/lang/ObjectHelper.java:328-332 | the pass over one more class adds that class's parents to the pass so far |
| ObjectHelper.RoundStep | src/main/java/permafrost/tundra/lang/ObjectHelper.java:329-331 | one more child adds its superclass, when it has one, and then its interfaces |
| ObjectHelper.RoundShallower | src/main/java/permafrost/tundra/lang/ObjectHelper.java:334 | every pass is strictly shallower in the hierarchy, so the do-while ends |
| ObjectHelper.GetAncestors | src/main/java/permafrost/tundra/lang/ObjectHelper.java:317-337 | the do-while loop computes the ancestor closure of the class |
| ObjectHelper.Ancestors | src/main/java/permafrost/tundra/lang/ObjectHelper.java:317-337 | getAncestors(Class): the class and all its ancestors; stated by AncestorsMembers, AncestorsStart, AncestorsClosed and GetAncestors |
| ObjectHelper.Closure | src/main/java/permafrost/tundra/lang/ObjectHelper.java:323-334 | the passes over superclasses and interfaces; stated by ClosureMembers, ClosureDistinct and ClosureExtends |
| ObjectHelper.Reaches | src/main/java/permafrost/tundra/lang/ObjectHelper.java:317-337 | one class is the other or an ancestor of it; stated by ReachesTransitive and AncestorsMembers |
| ObjectHelper.ClosureMembers | src/main/java/permafrost/tundra/lang/ObjectHelper.java:323-334 | the closure holds the classes already collected and everything reachable from the current parents |
| ObjectHelper.ClosureDistinct | src/main/java/permafrost/tundra/lang/ObjectHelper.java:318-324 | the closure has no duplicates |
| ObjectHelper.ClosureExtends | src/main/java/permafrost/tundra/lang/ObjectHelper.java:324 | each pass only appends to the ancestors collected so far |
| ObjectHelper.AncestorsMembers | src/main/java/permafrost/tundra/lang/ObjectHelper.java:317-337 | a class is an ancestor exactly when it is reachable through superclasses and interfaces; no class appears twice |
| ObjectHelper.AncestorsStart | src/main/java/permafrost/tundra/lang/ObjectHelper.java:321-324 | the first ancestor of a class is the class itself |
| ObjectHelper.AncestorsClosed | src/main/java/permafrost/tundra/lang/ObjectHelper.java:329-333 | the superclass and interfaces of an ancestor are ancestors too |
| ObjectHelper.ReachesTransitive | src/main/java/permafrost/tundra/lang/ObjectHelper.java:317-337 | an ancestor of an ancestor is an ancestor |
| ObjectHelper.ReachedFromStep | src/main/java/permafrost/tundra/lang/ObjectHelper.java:323-334 | something reachable from the parents is one of them or reachable from the next pass |
| ObjectHelper.AncestorsOf | src/main/java/permafrost/tundra/lang/ObjectHelper.java:307-309 | getAncestors(null) is empty; otherwise it is the ancestor closure of the object's class, which starts with that class |
| ObjectHelper.Common | src/main/java/permafrost/tundra/lang/ObjectHelper.java:255-267 | the running common ancestors never hold a duplicate |
| ObjectHelper.GetCommonAncestors | src/main/java/permafrost/tundra/lang/ObjectHelper.java:255-267 | the for loop computes the common-ancestor fold |
| ObjectHelper.CommonStep | src/main/java/permafrost/tundra/lang/ObjectHelper.java:258-264 | one more class fills an empty running set with its ancestors and otherwise intersects the set with them |
| ObjectHelper.CommonWithin | src/main/java/permafrost/tundra/lang/ObjectHelper.java:258-264 | every common ancestor is an ancestor of the last class |
| ObjectHelper.CommonSnoc | src/main/java/permafrost/tundra/lang/ObjectHelper.java:261-263 | once the set is non-empty, a further class intersects it with its ancestors |
| ObjectHelper.NeverEmptiedFront | src/main/java/permafrost/tundra/lang/ObjectHelper.java:258-264 | if the running set never empties, it never empties on a prefix |
| ObjectHelper.AllReachSnoc | src/main/java/permafrost/tundra/lang/ObjectHelper.java:258-264 | being an ancestor of all of one more class is being an ancestor of all before and of it |
| ObjectHelper.CommonIntersection | src/main/java/permafrost/tundra/lang/ObjectHelper.java:255-267 | when the running set never empties, the result holds exactly the classes that are ancestors of every given class |
| ObjectHelper.CommonRefill | src/main/java/permafrost/tundra/lang/ObjectHelper.java:259-260 | when the running set is empty, the next class refills it with all of its own ancestors |
| ObjectHelper.CommonOrdered | src/main/java/permafrost/tundra/lang/ObjectHelper.java:255-267 | when the running set never empties, the result keeps the first class's ancestor order and holds exactly those of its ancestors that are ancestors of every class |
| ObjectHelper.Shared | src/main/java/permafrost/tundra/lang/ObjectHelper.java:255-267 | the intended intersection: the first class's ancestors intersected with those of every further class, with no refill; its result has no repeated class |
| ObjectHelper.SharedIntersection | src/main/java/permafrost/tundra/lang/ObjectHelper.java:255-267 | the corrected result holds exactly the classes that every given class reaches, with no condition on the running set |
| ObjectHelper.SharedOrdered | src/main/java/permafrost/tundra/lang/ObjectHelper.java:255-267 | the corrected result keeps the order of the first class's ancestors |
| ObjectHelper.CommonShared | src/main/java/permafrost/tundra/lang/ObjectHelper.java:255-267 | while the running set never empties, the loop as written computes the corrected result |
| ObjectHelper.CommonDisjoint | src/main/java/permafrost/tundra/lang/ObjectHelper.java:258-263 | two classes that share no ancestor leave the running set empty |
| ObjectHelper.RefillKeeps | src/main/java/permafrost/tundra/lang/ObjectHelper.java:259-260 | after the running set empties, the next class is itself in the result |
| ObjectHelper.SharedMisses | src/main/java/permafrost/tundra/lang/ObjectHelper.java:255-267 | a class the first class does not reach is not in the corrected result |
| ObjectHelper.SharedEmpty | src/main/java/permafrost/tundra/lang/ObjectHelper.java:255-267 | when the first two classes share no ancestor, the corrected result is empty |
| ObjectHelper.RefillCounterexample | src/main/java/permafrost/tundra/lang/ObjectHelper.java:259-260 | when a and b share no ancestor and a does not reach c, c is in the result for [a, b, c] as written and not in the corrected one |
| ObjectHelper.RootsApart | src/main/java/permafrost/tundra/lang/ObjectHelper.java:317-337 | two distinct classes without parents share no ancestor |
| ObjectHelper.TwoRootsThen | src/main/java/permafrost/tundra/lang/ObjectHelper.java:255-267 | for two distinct roots a and b, then a class c that reaches b and not a, the loop answers all of c's ancestors, b among them and a not, where the corrected result is empty |
| ObjectHelper.Lang | src/main/java/permafrost/tundra/lang/ObjectHelper.java:255-267 | a small hierarchy of java.lang classes that has no cycles |
| ObjectHelper.StringReaches | src/main/java/permafrost/tundra/lang/ObjectHelper.java:317-337 | in that hierarchy String reaches Comparable and not Runnable |
| ObjectHelper.RunnableComparableString | src/main/java/permafrost/tundra/lang/ObjectHelper.java:259-260 | getAncestors(Runnable, Comparable, String) answers all of String's ancestors, Comparable among them and Runnable not, where the corrected result is empty |
| ObjectHelper.NearestAncestor | src/main/java/permafrost/tundra/lang/ObjectHelper.java:214-226 | Object when there are no common ancestors; otherwise the first common ancestor in the running set's order |
| ObjectHelper.NearestOfOne | src/main/java/permafrost/tundra/lang/ObjectHelper.java:214-226 | the nearest ancestor of one class is that class |
| ObjectHelper.NearestShared | src/main/java/permafrost/tundra/lang/ObjectHelper.java:214-226 | when the running set never empties, the nearest ancestor is an ancestor of every given class |
| ObjectHelper.ClassesOfMembers | src/main/java/permafrost/tundra/lang/ObjectHelper.java:367-369 | the collected classes are exactly the classes of the non-null objects |
| ObjectHelper.ToClassSet | src/main/java/permafrost/tundra/lang/ObjectHelper.java:364-372 | toClassSet holds each class of a non-null object exactly once, no other class, in first-seen order |
| ObjectHelper.ClassesStep | src/main/java/permafrost/tundra/lang/ObjectHelper.java:367-369 | one more object adds its class when it is non-null and changes nothing when it is null |
| ObjectHelper.NearestOfClassArgsAsWritten | src/main/java/permafrost/tundra/lang/ObjectHelper.java:234-236 | as written, getNearestAncestor(Class...) with no non-null class answers Object |
| ObjectHelper.ClassObjectsClasses | src/main/java/permafrost/tundra/lang/ObjectHelper.java:380-388 | the class of every class object is java.lang.Class, and there is none exactly when every element is null |
| ObjectHelper.ClassObjectsSeen | src/main/java/permafrost/tundra/lang/ObjectHelper.java:380-388 | any non-null class object makes the class set exactly java.lang.Class |
| ObjectHelper.NearestOfClassArgsIsClassClass | src/main/java/permafrost/tundra/lang/ObjectHelper.java:234-236 | as written, any call with a non-null class answers java.lang.Class |
| ObjectHelper.NearestOfClassArgsCounterexample | src/main/java/permafrost/tundra/lang/ObjectHelper.java:234-236 | for one class other than java.lang.Class, the answer as written differs from the nearest common ancestor |
| ObjectHelper.NamedOne | src/main/java/permafrost/tundra/lang/ObjectHelper.java:352 | Class.forName of a null name throws NullPointerException; a known name is its class; an unknown one throws ClassNotFoundException |
| ObjectHelper.Named | src/main/java/permafrost/tundra/lang/ObjectHelper.java:346-356 | on success there is one class per name |
| ObjectHelper.NamedMeaning | src/main/java/permafrost/tundra/lang/ObjectHelper.java:346-356 | toClassArray succeeds exactly when every name is non-null and known; then each position holds the class of its name; otherwise the exception is that of the first name that fails |
| ObjectHelper.NamedStep | src/main/java/permafrost/tundra/lang/ObjectHelper.java:351-353 | one more name appends its class or stops with its exception |
| ObjectHelper.NamedPrefixError | src/main/java/permafrost/tundra/lang/ObjectHelper.java:351-353 | the names after the first that fails are never looked at |
| ObjectHelper.ToClassArray | src/main/java/permafrost/tundra/lang/ObjectHelper.java:346-356 | null for null; otherwise a new array holding the class of each name in order, or the exception of the first name that fails |
| ObjectHelper.AncestorsOfNames | src/main/java/permafrost/tundra/lang/ObjectHelper.java:287-289 | getAncestors(String...) throws NullPointerException for a null array; otherwise it fails exactly when toClassArray does, with its exception, and on success it is the common ancestors of the classes toClassArray gives, with no duplicates |
| ObjectHelper.AncestorsOfNamesShared | src/main/java/permafrost/tundra/lang/ObjectHelper.java:281-289 | when every name resolves and the running set never empties, the result holds exactly the classes that are ancestors of the class of every name |
| ObjectHelper.NearestOfNamesAsWritten | src/main/java/permafrost/tundra/lang/ObjectHelper.java:245-247 | as written, getNearestAncestor(String...) throws for a null array and for a name that fails; no names answer Object; names that all resolve answer java.lang.Class |
| ObjectHelper.MaxDepth | src/main/java/permafrost/tundra/lang/ObjectHelper.java:334 | the measure bounds the depth of every class in a pass |
| MessageFormat.New | src/main/java/permafrost/tundra/message/format/Format.java:73-90 | a null document, a missing name and a missing recognize/ref each fail and leave the document alone; otherwise every field is read and enabled is written back |
| MessageFormat.EnabledOf | src/main/java/permafrost/tundra/message/format/Format.java:88 | enabled defaults to true when absent or null; a value the boolean parser reads as false disables |
| MessageFormat.Normalised | src/main/java/permafrost/tundra/message/format/Format.java:89 | the document after the constructor is the put of enabled as "true" or "false" |
| MessageFormat.NormalisedEnabled | src/main/java/permafrost/tundra/message/format/Format.java:88-89 | after the constructor the document holds the enabled flag it computed |
| MessageFormat.NormalisedStable | src/main/java/permafrost/tundra/message/format/Format.java:88-89 | constructing again from the written-back document gives the same enabled flag |
| MessageFormat.NormalisedKeepsFields | src/main/java/permafrost/tundra/message/format/Format.java:77-89 | writing enabled back leaves name, recognize/ref, namespace and route unchanged |
| MessageFormat.NormalisedKeepsPath | src/main/java/permafrost/tundra/message/format/Format.java:77-89 | writing enabled back changes nothing that is read under another top-level key |
| MessageFormat.SameReadsTransitive | src/main/java/permafrost/tundra/message/format/Format.java:77-86 | reading alike is transitive |
| MessageFormat.FirstError | src/main/java/permafrost/tundra/message/format/Format.java:77-82 | the constructor's exception for a non-null document: a missing name first, then a missing recognize/ref; none exactly when both are there |
| MessageFormat.SameReadsSameError | src/main/java/permafrost/tundra/message/format/Format.java:77-82 | documents that read alike fail alike |
| MessageFormat.ReadFields | src/main/java/permafrost/tundra/message/format/Format.java:73-90 | the constructor fails exactly when FirstError gives an exception, and with that exception |
| MessageFormat.SameReadsSameFields | src/main/java/permafrost/tundra/message/format/Format.java:77-88 | documents that read alike give the same fields, the enabled flag apart |
| MessageFormat.NameKey | src/main/java/permafrost/tundra/message/format/Format.java:77 | the key "name" is a top-level simple key |
| MessageFormat.RecognizeKey | src/main/java/permafrost/tundra/message/format/Format.java:81 | the key "recognize/ref" is ref inside recognize |
| MessageFormat.NamespaceKey | src/main/java/permafrost/tundra/message/format/Format.java:83 | the key "namespace" is a top-level simple key |
| MessageFormat.RouteTypeKey | src/main/java/permafrost/tundra/message/format/Format.java:85 | the key "route/type" is type inside route |
| MessageFormat.RouteRefKey | src/main/java/permafrost/tundra/message/format/Format.java:86 | the key "route/ref" is ref inside route |
| MessageFormat.EnabledKey | src/main/java/permafrost/tundra/message/format/Format.java:88 | the key "enabled" is a top-level simple key |
| MessageFormat.ParseTopLevel | src/main/java/permafrost/tundra/message/format/Format.java:77-88 | a key with no "/" and no trailing index is one top-level step |
| MessageFormat.ParseNested | src/main/java/permafrost/tundra/message/format/Format.java:81-86 | two such keys joined with "/" are two steps |
| MessageFormat.Text | src/main/java/permafrost/tundra/message/format/Format.java:77-86 | a text field is read only when the value is a string |
| MessageFormat.ReadDocument | src/main/java/permafrost/tundra/message/format/Format.java:83 | the namespace is read only when the value is a document |
| MessageFormat.Format.constructor | src/main/java/permafrost/tundra/message/format/Format.java:73-90 | a format holds exactly the fields it was built from |
| MessageFormat.Format.Recognize | src/main/java/permafrost/tundra/message/format/Format.java:125-127 | a disabled format recognizes nothing; an enabled one recognizes what its condition accepts |
| MessageFormat.Format.HashCode | src/main/java/permafrost/tundra/message/format/Format.java:157-159 | the hash code is a 32-bit int |
| MessageFormat.Format.Equals | src/main/java/permafrost/tundra/message/format/Format.java:136-140 | equals: a format equals another format of the same name; stated by EqualsByName, EqualsNull and EqualsConsistent |
| MessageFormat.Format.CompareTo | src/main/java/permafrost/tundra/message/format/Format.java:168-170 | compareTo orders formats by name; EqualsConsistent states it is 0 exactly for equal formats and antisymmetric |
| MessageFormat.Format.SetIData | src/main/java/permafrost/tundra/message/format/Format.java:188-190 | setIData always fails as unsupported |
| MessageFormat.EqualsByName | src/main/java/permafrost/tundra/message/format/Format.java:136-140 | two formats are equal exactly when they have the same name; equality is symmetric |
| MessageFormat.EqualsNull | src/main/java/permafrost/tundra/message/format/Format.java:136-140 | no format equals null |
| MessageFormat.EqualsConsistent | src/main/java/permafrost/tundra/message/format/Format.java:136-170 | equal formats hash alike; compareTo is 0 exactly for equal formats and is antisymmetric |
| MessageFormat.Of | src/main/java/permafrost/tundra/message/format/Format.java:198-201 | of(null) is null; otherwise what the constructor does: its exception with the document left alone, or a new format built from the document, with enabled written back |
| MessageFormat.Present | src/main/java/permafrost/tundra/message/format/Format.java:213-217 | no more documents are kept than were given, and every kept one is from the input |
| MessageFormat.PresentMembers | src/main/java/permafrost/tundra/message/format/Format.java:213-217 | every kept document is one of the input and every non-null input document is kept |
| MessageFormat.PresentSnoc | src/main/java/permafrost/tundra/message/format/Format.java:213-217 | one more document extends the kept documents by it, unless it is null |
| MessageFormat.PresentAll | src/main/java/permafrost/tundra/message/format/Format.java:213-217 | with no nulls, every document is kept, in order |
| MessageFormat.PresentConcat | src/main/java/permafrost/tundra/message/format/Format.java:213-217 | the non-null documents of two lists are those of each, in order |
| MessageFormat.RunOf | src/main/java/permafrost/tundra/message/format/Format.java:213-217 | a loop that does not fail gives one set of fields per non-null document |
| MessageFormat.TurnOutcome | src/main/java/permafrost/tundra/message/format/Format.java:214-216 | a turn succeeds exactly when the loop has not failed and the document has a name and a recognize/ref; a document without gives its exception; after a failure a turn changes nothing |
| MessageFormat.TurnSuccess | src/main/java/permafrost/tundra/message/format/Format.java:214-216 | a successful turn appends the fields read and writes enabled back into that document and no other |
| MessageFormat.TurnKeepsReads | src/main/java/permafrost/tundra/message/format/Format.java:214-216 | a turn leaves every document reading as it did, the enabled flag apart |
| MessageFormat.RunSnoc | src/main/java/permafrost/tundra/message/format/Format.java:213-217 | one more document is one more turn |
| MessageFormat.RunPrefixError | src/main/java/permafrost/tundra/message/format/Format.java:213-217 | once the loop has failed, later documents change nothing |
| MessageFormat.RunKeepsReads | src/main/java/permafrost/tundra/message/format/Format.java:213-217 | the loop leaves every document reading as it did, the enabled flag apart |
| MessageFormat.RunUntouched | src/main/java/permafrost/tundra/message/format/Format.java:213-217 | a document the loop never reaches keeps its entries |
| MessageFormat.FirstFailureMeans | src/main/java/permafrost/tundra/message/format/Format.java:213-217 | there is no failure exactly when every document has a name and a recognize/ref; a failure is the exception of the first document without |
| MessageFormat.RunFailure | src/main/java/permafrost/tundra/message/format/Format.java:213-217 | the loop fails exactly when FirstFailure gives an exception, and with that exception |
| MessageFormat.RunSucceeds | src/main/java/permafrost/tundra/message/format/Format.java:209-220 | of(documents) succeeds exactly when every non-null document has a name and a recognize/ref |
| MessageFormat.RunFirstError | src/main/java/permafrost/tundra/message/format/Format.java:213-217 | on failure, the exception is that of the first document without a name or a recognize/ref |
| MessageFormat.RunFormatsSnoc | src/main/java/permafrost/tundra/message/format/Format.java:213-217 | each format holds the fields read from its document as the earlier turns left it |
| MessageFormat.RunReadsFields | src/main/java/permafrost/tundra/message/format/Format.java:213-217 | every format holds the name, recognize/ref, namespace and route its document had before the loop |
| MessageFormat.RunDistinctFields | src/main/java/permafrost/tundra/message/format/Format.java:213-217 | with each document listed once, each format holds exactly what the constructor reads from its document as it was on entry, and each document ends with enabled written back |
| MessageFormat.RunUpToIsRunOf | src/main/java/permafrost/tundra/message/format/Format.java:212-217 | item by item, with null items skipped, the loop is RunOf over the non-null items |
| MessageFormat.RunUpToStops | src/main/java/permafrost/tundra/message/format/Format.java:213-217 | once the loop has failed, later items change nothing |
| MessageFormat.ReadNext | src/main/java/permafrost/tundra/message/format/Format.java:214-215 | one turn on the heap: the constructor on the next non-null item either throws, which ends the loop, or gives a new format over that item holding the fields the turn reads; the documents hold what the turn leaves |
| MessageFormat.Advance | src/main/java/permafrost/tundra/message/format/Format.java:213-217 | a null item is skipped; any other is read and, on success, its new format joins the output |
| MessageFormat.ReadAll | src/main/java/permafrost/tundra/message/format/Format.java:212-219 | the loop over all items: the exception RunUpTo ends with, or one new format per non-null item in order, holding the fields RunUpTo read |
| MessageFormat.OfAll | src/main/java/permafrost/tundra/message/format/Format.java:209-220 | null for null; otherwise the loop RunOf describes over the non-null documents as they were on entry: its first exception, or one new format per non-null document, in order, over that document and holding the fields its turn read; every document ends as the loop leaves it |
| MessageFormat.ToIData | src/main/java/permafrost/tundra/message/format/Format.java:239-252 | toIData(null) is null; otherwise the entries the format's document holds at the call |
| MessageFormat.ToIDataArray | src/main/java/permafrost/tundra/message/format/Format.java:271-282 | null gives null; otherwise a new array of the same length holding null or the document of each format |
| ThreadHelper.NormalizePriority | src/main/java/permafrost/tundra/lang/ThreadHelper.java:119-127 | a priority below MIN_PRIORITY becomes 1, above MAX_PRIORITY becomes 10, and any other is kept |
| ThreadHelper.NormalizeInRange | src/main/java/permafrost/tundra/lang/ThreadHelper.java:119-127 | the result is always from 1 to 10, and it equals the input exactly when the input is in that range |
| ThreadHelper.NormalizeIdempotent | src/main/java/permafrost/tundra/lang/ThreadHelper.java:119-127 | normalizing twice is normalizing once |
| ThreadHelper.NormalizeMonotonic | src/main/java/permafrost/tundra/lang/ThreadHelper.java:119-127 | normalizing keeps the order of priorities |
| ThreadHelper.DescribeOne | src/main/java/permafrost/tundra/lang/ThreadHelper.java:135-136 | a null thread describes as null, any other by toIData |
| ThreadHelper.Describe | src/main/java/permafrost/tundra/lang/ThreadHelper.java:175-185 | one description per thread, in order |
| ThreadHelper.DescribeConcat | src/main/java/permafrost/tundra/lang/ThreadHelper.java:175-185 | describing two lists of threads is describing each |
| ThreadHelper.ToIDataArray | src/main/java/permafrost/tundra/lang/ThreadHelper.java:175-185 | null gives null; otherwise a new array holding the description of each thread |
| ClassHelper.ResolveOne | src/main/java/permafrost/tundra/lang/ClassHelper.java:40-52 | a null name stays null; a name found is its class; a name not found raises ClassNotFound |
| ClassHelper.Resolve | src/main/java/permafrost/tundra/lang/ClassHelper.java:40-52 | on success there is exactly one class per name |
| ClassHelper.ResolveMeaning | src/main/java/permafrost/tundra/lang/ClassHelper.java:40-52 | on success each position holds null where the name is null and the looked-up class elsewhere; on failure the error names the first non-null name that was not found, every earlier name resolving |
| ClassHelper.ResolveStep | src/main/java/permafrost/tundra/lang/ClassHelper.java:43-50 | one more name either appends its class to those resolved so far or stops with that name's error |
| ClassHelper.ResolveSucceeds | src/main/java/permafrost/tundra/lang/ClassHelper.java:40-52 | the names resolve exactly when every non-null name is found |
| ClassHelper.ResolvePrefixError | src/main/java/permafrost/tundra/lang/ClassHelper.java:45-49 | the first failing name decides the error; later names are never looked at |
| ClassHelper.ForName | src/main/java/permafrost/tundra/lang/ClassHelper.java:40-52 | null gives null; otherwise a new array of the resolved classes, or the first ClassNotFound |
| ClassHelper.Repeat | src/main/java/permafrost/tundra/lang/ClassHelper.java:65 | the dimension prefix is n "[" characters |
| ClassHelper.ArrayClassName | src/main/java/permafrost/tundra/lang/ClassHelper.java:65 | the array class name is "[" repeated dimensions times, then "L", the component and ";" |
| ClassHelper.LeadingBrackets | src/main/java/permafrost/tundra/lang/ClassHelper.java:65 | counts the leading "[" of a name |
| ClassHelper.ParseArrayClassNameInverse | src/main/java/permafrost/tundra/lang/ClassHelper.java:65 | the component and the dimensions can be read back from the array class name |
| ClassHelper.ParseArrayClassName | src/main/java/permafrost/tundra/lang/ClassHelper.java:65 | reads an array class name back into its component and dimensions; stated by ParseArrayClassNameInverse and ParseArrayClassNameSound |
| ClassHelper.ParseArrayClassNameSound | src/main/java/permafrost/tundra/lang/ClassHelper.java:65 | every name the parser reads back is the array class name of the component and dimensions it returns, with at least one dimension |
| ClassHelper.GetArrayClass | src/main/java/permafrost/tundra/lang/ClassHelper.java:62-69 | dimensions < 1 fail; otherwise the class with the array name, or an illegal component error |

## Left out

- `IDataHelper.java`, `CopyOnWriteIDataMap.java`, `IDataMap.java`, `IntegerHelper.java`, `BooleanHelper.java` and `StringHelper.java` are not part of this model. The document operations and the parser follow what their tests assert. Where the tests are silent, the model makes the choices listed below.
- Unasserted document choices:
  - a bare key reads its first occurrence;
  - `put` at `k[i]` past the end pads the array with nulls;
  - `put` at `k[i]` with `i < -length` fails;
  - `get` of `k[i]` on a value that is not an array reads null;
  - `copy` puts the source value at the target unless it is null;
  - `rename` is `copy` followed by `drop` of the source;
  - `size` of `k(n)` past the last occurrence is 0; `size` of `k[i]` is 1 inside the array and an index error outside it, and 0 when the value is not an array; `size` under a parent that is not a document is 0 (the tests fix only that the size of `a(1)` is 1);
  - `put` at `k[i]` over a value that is not an array replaces that value with a new array;
  - `drop` of `k[i]` when the value is not an array changes nothing;
  - `drop` of a path through a value that is not a document changes nothing.
- How `Format` reads its document, where `IDataHelper.get` with a class argument and `BooleanHelper.parse` are not part of this model:
  - `MessageFormat.Text`: a value that is not a string reads as absent, as if the conversion to `String` gave null;
  - `MessageFormat.EnabledOf`: a value the boolean parser cannot read counts as true, the default `parse(value, true)` is given.
- `getKeys` with a pattern is left out, because it relies on `java.util.regex`. `getValues` and `merge` are left out, because no property of them is modelled.
- The sort:
  - its XML-built input is given directly as documents;
  - the typed criteria are reduced to text keys (ordered by `String.compareTo`) and whole-number keys (parsed by `IntegerHelper.parse`), with a missing or unparseable key first;
  - decimal, datetime and duration comparisons are left out;
  - sort keys are top-level keys only.
- Nested documents in the path-addressed model are values, not shared references. An alias to a child held elsewhere does not see a change made through its parent.
- A copy-on-write cursor is modelled as an index into the wrapper's view. Concurrent modification through two cursors is not modelled.
- Strings are sequences of characters; UTF-16 code units and surrogate pairs are not modelled.
- `IntegerHelper.Parse` is unbounded (like `BigInteger`). The overflow of a Java `int` or `long` result is not modelled.
- `ThreadHelper.NormalizePriority` works on unbounded integers instead of Java `int`, where the clamp behaves the same.
- `ObjectHelper.stringify`, `convert` and `instance` are left out: they depend on host types, charsets, streams and reflection.
- The overloads that only convert their arguments are modelled as compositions, not as loops of their own:
  - `getAncestors(String...)` is `ToClassArray` followed by `Common` (`AncestorsOfNames`);
  - `getNearestAncestor(String...)` is `ToClassArray` followed by the `Class...` overload (`NearestOfNamesAsWritten`);
  - `getNearestAncestor(Class...)` passes a `List` and so reaches the `Collection<?>` overload, which takes the class of each class object (`NearestOfClassArgsAsWritten`; see Findings);
  - `getNearestAncestor(Object...)`, `getNearestAncestor(Collection<?>)` and `getAncestors(Object...)` are `ToClassSet` followed by `NearestAncestor` or `Common`;
  - `getAncestors(Class...)` and `getAncestors(Collection<Class<?>>)` are `GetCommonAncestors`; the conversion of its set to an array is not modelled.
- `toClassArray` differs from `ClassHelper.forName`: it calls `Class.forName` on a null name, which throws, while `forName` keeps the null. `ObjectHelper.NamedOne` and `ClassHelper.ResolveOne` state each.
- `ObjectHelper.AncestorsOf`: `getAncestors(null)` returns an empty `TreeSet`, modelled as an empty sequence; its sorted-set type is not modelled.
- `ObjectHelper.CommonIntersection` is stated only when the running set never becomes empty. When it does, the source refills the set from the next class; `CommonRefill` states that case exactly, and Findings records it. `ObjectHelper.Shared` is the intersection without the refill, and `GetCommonAncestors` keeps the loop as written.
- `ThreadHelper.list`, `root`, `sleep` and the fields that `toIData` reads from a thread are left out: thread enumeration, sleeping and JVM introspection.
- `MessageFormat.Format.Recognize`: the `ConditionEvaluator` and the `IDataNamespaceContext` it is built with are left out; the condition is an uninterpreted predicate over the condition text, the namespace and the pipeline.
- `MessageFormat.ToIData` and `MessageFormat.ToIDataArray`: `toIData()` returns `CopyOnWriteIDataMap.of(document)`, a copy-on-write view of the document. The model returns the entries that view shows at the call. Sharing the document until the first write is modelled on its own in `copy_on_write.dfy`, and not tied to these members.
- `MessageFormat.Format.HashCode` is stated only as a 32-bit `int` here. `EqualsConsistent` ties it to `equals`, and `JavaLang.HashCodeIsPolynomial` states the `String.hashCode` formula.
- `Format.of(IData[])` is modelled through `MessageFormat.OfAll` on the array's elements, not as a separate member.
- `Format.toIDataArray(Collection<Format>)` gives null for null and otherwise converts the collection to an array and delegates to `toIDataArray(Format[])`, which `MessageFormat.ToIDataArray` models; the collection overload is not a separate member.
- `MIMETypeHelper`, `ConcurrentMapIData`, `InvokeStateHelper`, `UnrecoverableException`, `UnsupportedException`, `LiteralFilenameFilter` and `WebUtils` are left out. Each either delegates to host or JDK classes or only passes its arguments on.
- Most exceptions the source throws are `Result` error values in the model:
  - the constructor's `NullPointerException`s: a null document, a missing name, a missing `recognize/ref`;
  - the `NullPointerException` of `Class.forName(null)` in `toClassArray`, and of `Arrays.asList` on a null array;
  - every `ClassNotFoundException`;
  - the `IllegalArgumentException` of `getArrayClass`.
- A `NullPointerException` from a null argument is not modelled where the member's parameter type cannot be null. That covers every parameter that is not an `Option`, an `array?` or a `Document?`. Examples:
  - `Format.compareTo(null)` (`MessageFormat.Format.CompareTo` takes a non-null format);
  - a null class inside the collection given to `getAncestors(Collection<Class<?>>)`, which fails at `getSuperclass()` (`GetCommonAncestors` takes classes, not optional ones);
  - a null collection given to `getAncestors(Collection<Class<?>>)`, which fails at the for-each, and so a null set given to `getNearestAncestor(Set<Class<?>>)` (`GetCommonAncestors` and `NearestAncestor` take sequences);
  - `toClassSet` of a null array or collection, reached from `getNearestAncestor(Object...)` and `getAncestors(Object...)` (`ToClassSet` takes a sequence);
  - a null array given to `getNearestAncestor(Class<?>...)`, which fails in `Arrays.asList` (`NearestOfClassArgsAsWritten` takes a sequence);
  - `getArrayClass(null, n)` with `n >= 1`, which fails at `componentClass.getName()` (`ClassHelper.GetArrayClass` takes the component's name as a string).

## Findings

| source | as written | input that shows it | evidently intended | confidence | as-written member | corrected member |
|---|---|---|---|---|---|---|
| src/main/java/permafrost/tundra/lang/ObjectHelper.java:234-236 | `getNearestAncestor(Class<?>...)` passes `Arrays.asList(classes)`, a `List`, which picks the `getNearestAncestor(Collection<?>)` overload; that takes the class of each element, and each element is a class object, so the answer is `java.lang.Class`; `getNearestAncestor(String...)` inherits this | `getNearestAncestor(String.class)` answers `java.lang.Class`, not `String` | the nearest common ancestor of the given classes, `getNearestAncestor(Set<Class<?>>)` applied to them | high; not executed | ObjectHelper.NearestOfClassArgsCounterexample | ObjectHelper.NearestAncestor |
| src/main/java/permafrost/tundra/lang/ObjectHelper.java:259-260 | `getAncestors(Collection<Class<?>>)` refills the running set with all the ancestors of the next class whenever it is empty, so once two classes share nothing the next class starts the intersection afresh; `getAncestors(Class...)`, `getAncestors(String...)` and `getAncestors(Object...)` inherit this | `getAncestors(Runnable.class, Comparable.class, String.class)`: the two interfaces share no ancestor, so the answer is all of String's ancestors, Comparable among them but not Runnable | the classes that are ancestors of every given class, here none | medium; not executed | ObjectHelper.RunnableComparableString | ObjectHelper.Shared |
