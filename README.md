# stumbra: a verified model of the Umbra string

This project models `UmbraString`, the "German string" of the Go package
`stumbra`. It is the short-string layout from the Umbra paper. A byte string
becomes a small record: its length, a 4-byte inline `prefix` and a `trailing`
reference. The length chooses one of three storage classes:

- **Short**, length 0..4: everything is in the prefix and there is no tail.
- **Inlined**, length 5..12: the tail is a fresh 8-byte buffer holding bytes
  [4, length), padded with zeros.
- **Long**, length above 12: the tail is the whole string.

The prefix always holds the first min(length, 4) bytes, followed by zeros.
`Equal` and `Compare` therefore settle most cases on the length and prefix
alone. They read the tail only when the prefixes tie.

Files:

- `bytes.dfy` (module `ByteSeq`): the Go library pieces the core uses,
  stated on `seq<byte>`. These are Go's `copy`, `bytes.Compare` as
  `CompareBytes`, and zero padding to a fixed width as `PadTo`. The lemmas say
  that `CompareBytes` is lexicographic order, antisymmetric and transitive.
  They also prove that comparing zero-padded heads is sound.
- `stumbra.dfy` (module `Stumbra`): the record and its invariant (`Valid`). It
  holds the declarative layout of a string (`Layout`), the constructor `New`,
  and `Len`, `IsEmpty`, `Bytes`, `String`, `suffix` (as `Suffix`), `Equal`,
  `Compare` and `i32Compare`. Each is tied to the logical string `Bytes(us)`
  by lemmas.
- `aswritten.dfy` (module `StumbraAsWritten`): the places where the Go code
  departs from the layout's intent, modelled as written, with inputs that show
  the departure (see Findings).
- `samples.dfy` (module `StumbraSamples`): the byte strings the scenarios and
  counterexamples use.
- `scenarios.dfy` (module `StumbraScenarios`): the scenarios from the package's tests,
  and class-boundary cases this model adds, as client methods. They call `New` and rely only on
  the contracts.

A record is a `datatype` value. The Go struct is a value that nothing changes
after `New`. `New` is a method that builds the record step by step, as the Go
function does. It copies into a zero-initialised prefix, fills a freshly
allocated 8-byte array for the Inlined class, and stores the tail. Its
contract ties the result to `Layout(s)`. The read-side operations are
functions. Go strings and byte slices are both `seq<byte>`, and the Go `error`
result is the datatype `Error` (`NoError` stands for nil).

`Equal` and `Compare` are stated with the behaviour the code evidently
intends. On a prefix tie, the other operand's buffer is used (stumbra.go:82).
A Short record's missing tail reads as eight zero bytes in the 12-byte
comparison (stumbra.go:99) and as an empty suffix (stumbra.go:110). The stored
length is 32 unsigned bits (stumbra.go:21 declares `int32`). As in the code,
the Inlined buffer is a separate tail value, not part of the record.

## Model

| member | source | states |
|---|---|---|
| `ByteSeq.Zeros` | stumbra.go:40 | the zero-initialised buffer `new([n]byte)` has n bytes, all zero |
| `ByteSeq.Copy` | stumbra.go:37-44 | Go's `copy` keeps the destination length and overwrites exactly its first min(len(dst), len(src)) bytes |
| `ByteSeq.PadTo` | stumbra.go:37-44 | the first n bytes of a string followed by zeros, pointwise, of length n |
| `ByteSeq.CopyIntoZeros` | stumbra.go:37-41 | copying into a zero-initialised array gives the copied bytes padded with zeros |
| `ByteSeq.CompareBytes` | stumbra.go:90 | `bytes.Compare` returns only -1, 0 or 1, and 0 exactly for equal strings |
| `ByteSeq.CompareBytesIsLexLess` | stumbra.go:90 | `bytes.Compare` returns -1 exactly when the first string precedes the second in unsigned lexicographic order |
| `ByteSeq.CompareBytesAntisymmetric` | stumbra.go:105 | swapping the operands of `bytes.Compare` negates its result |
| `ByteSeq.CompareBytesTransitive` | stumbra.go:105 | the order `bytes.Compare` decides is transitive |
| `ByteSeq.CompareBytesCommonPrefix` | stumbra.go:105 | a shared leading part does not change the comparison |
| `ByteSeq.CompareBytesProperPrefix` | stumbra.go:94-96 | a proper prefix sorts first |
| `ByteSeq.PaddedCompareSound` | stumbra.go:90-92 | when the zero-padded n-byte heads of two strings differ, their order is the order of the whole strings |
| `ByteSeq.PaddedTie` | stumbra.go:94-102 | when the zero-padded forms of two strings of at most n bytes coincide, the strings are ordered by length |
| `Stumbra.New` | stumbra.go:26-49 | `ErrTooLong` with the zero record exactly when len(s) > 2^32-1; otherwise a nil error and a valid record that is the layout of `s`, with `Bytes`, `String` and `Len` giving back `s` and len(s) |
| `Stumbra.ClassOf` | stumbra.go:35-46 | the length switch: Short iff length <= 4, Inlined iff 4 < length <= 12, Long iff length > 12 (inclusive upper bounds 4 and 12) |
| `Stumbra.LayoutClasses` | stumbra.go:35-46 | class by length with inclusive bounds 4 and 12: no tail, an 8-byte buffer holding s[4:] zero padded, or the whole string; the prefix is the head of `s` padded with zeros in every class |
| `Stumbra.RoundTrip` | stumbra.go:59-68 | every accepted string's layout is valid, `Bytes` and `String` give it back, `Len` is its length and `IsEmpty` holds iff it is empty |
| `Stumbra.Canonical` | stumbra.go:35-46 | every valid record is the layout of its own logical string |
| `Stumbra.SameBytesSameRecord` | stumbra.go:35-46 | two valid records with the same logical string are the same record |
| `Stumbra.Len` | stumbra.go:51-53 | the length is never negative and at most 2^32-1 |
| `Stumbra.IsEmpty` | stumbra.go:55-57 | holds exactly when the logical string is empty |
| `Stumbra.Suffix` | stumbra.go:108-113 | the suffix has length len-4 past the prefix, and none for a Short record |
| `Stumbra.SuffixIsTail` | stumbra.go:108-113 | from length 4 on, the logical string is the prefix followed by the suffix, and the suffix is bytes [4, len) of it |
| `Stumbra.Bytes` | stumbra.go:63-68 | the rebuilt string has exactly len bytes, and its first 4 bytes zero padded are the stored prefix |
| `Stumbra.String` | stumbra.go:59-61 | the text has exactly len bytes; `RoundTrip` shows it is the original string |
| `Stumbra.I32Compare` | stumbra.go:115-124 | returns -1, 0 or 1; 0 iff a == b; -1 iff a < b |
| `Stumbra.I32CompareAntisymmetric` | stumbra.go:115-124 | `i32Compare(a, b) == -i32Compare(b, a)` |
| `Stumbra.Equal` | stumbra.go:70-87 | a true result implies equal length and prefix, so a header mismatch is decided on the fast path |
| `Stumbra.EqualCorrect` | stumbra.go:70-86 | `Equal` holds iff the two logical strings are byte-for-byte equal |
| `Stumbra.EqualIsIdentity` | stumbra.go:70-86 | `Equal` holds iff the two records are identical |
| `Stumbra.EqualIsEquivalence` | stumbra.go:70-86 | `Equal` is reflexive, symmetric and transitive |
| `Stumbra.TailBuffer` | stumbra.go:99 | the buffer compared for records of at most 12 bytes has 8 bytes |
| `Stumbra.InlinedPadding` | stumbra.go:98-103 | a record of at most 12 bytes, with its prefix and buffer, is its logical string zero padded to 12 bytes |
| `Stumbra.Compare` | stumbra.go:89-106 | returns only -1, 0 or 1 |
| `Stumbra.PrefixDecides` | stumbra.go:90-92 | when the padded prefixes differ, their order is the order of the logical strings |
| `Stumbra.ShortTieBreak` | stumbra.go:94-96 | on a prefix tie between two Short records, the length comparison is the order of the logical strings |
| `Stumbra.InlinedTieBreak` | stumbra.go:98-103 | on a prefix tie between records of at most 12 bytes, the padded-tail comparison, then the length comparison, is the order of the logical strings |
| `Stumbra.LongSuffixDecides` | stumbra.go:105 | on a prefix tie where one length exceeds 12, the suffix comparison is the order of the logical strings |
| `Stumbra.ShorterIsPrefix` | stumbra.go:105 | a record under 4 bytes that ties the prefix of a Long one sorts before it, by the strings and by the suffixes alike |
| `Stumbra.CompareCorrect` | stumbra.go:89-106 | `Compare` equals `bytes.Compare` on the two logical strings |
| `Stumbra.CompareIsLexicographic` | stumbra.go:89-106 | `Compare` is -1 exactly when a's string precedes b's lexicographically, and 1 exactly when b's precedes a's |
| `Stumbra.CompareZeroIffEqual` | stumbra.go:94-105 | `Compare(a, b) == 0` iff `Equal(a, b)` |
| `Stumbra.CompareIsTotalOrder` | stumbra.go:89-106 | `Compare` is antisymmetric and transitive |
| `StumbraScenarios.EqualDifferentString` | stumbra_test.go:9-29 | "hello" and "world" are unequal in both directions |
| `StumbraScenarios.EqualSameString` | stumbra_test.go:31-51 | two records of "" are equal in both directions and compare as 0 |
| `StumbraScenarios.ComparePrefixDecides` | stumbra.go:90-92 | the prefixes "hell" and "worl" compare as -1, and so do "hello" and "world" |
| `StumbraScenarios.CompareStrictPrefix` | stumbra.go:94-103 | "abcd" sorts before "abcde" |
| `StumbraScenarios.CompareLongSuffix` | stumbra.go:105 | "abcdabcdabcdX" sorts before "abcdabcdabcdY", and the swapped comparison is 1 |
| `StumbraAsWritten.Int32Conversion` | stumbra.go:32 | Go's `int32(n)`: identity below 2^31, n - 2^32 from 2^31 to 2^32-1 |
| `StumbraAsWritten.LengthWrapsNegative` | stumbra.go:27-36 | a length from 2^31 to 2^32-1 passes the length check, is stored negative and is classed Short |
| `StumbraAsWritten.EqualAsWritten` | stumbra.go:70-86 | as written, a true result still implies equal length and prefix |
| `StumbraAsWritten.EqualAsWrittenIgnoresTail` | stumbra.go:78-83 | as written, Inlined records with the same length and prefix always compare equal |
| `StumbraAsWritten.SelfAliasCounterexample` | stumbra.go:82 | "abcde" and "abcdf" differ, yet `Equal` as written holds, while the intended `Equal` does not |
| `StumbraAsWritten.SuffixAsWritten` | stumbra.go:108-113 | as written, `suffix()` panics exactly on a record without a tail |
| `StumbraAsWritten.BytesAsWritten` | stumbra.go:63-68 | as written, `Bytes()` panics exactly on a record without a tail |
| `StumbraAsWritten.BytesAsWrittenPanicsOnShort` | stumbra.go:63-66 | as written, `Bytes()` panics exactly on Short records and otherwise returns the logical string |
| `StumbraAsWritten.BytesOfEmptyPanics` | stumbra.go:65 | `Bytes()` of the record `New("")` builds panics as written |
| `StumbraAsWritten.CompareAsWritten` | stumbra.go:89-106 | as written, whenever `Compare` returns, it returns -1, 0 or 1 |
| `StumbraAsWritten.CompareAsWrittenPanics` | stumbra.go:98-105 | as written, `Compare` panics exactly on a prefix tie where one operand, but not both, is Short; otherwise it returns the intended result |
| `StumbraAsWritten.StrictPrefixCounterexample` | stumbra.go:99 | as written, "abcd" against "abcde" panics; the intended result is -1 |

## Left out

- Raw memory reinterpretation in `Equal` (stumbra.go:72-73): step 1 is modelled as a comparison of the `len` and `prefix` fields. As written, `&us` takes the address of the receiver pointer, so the 8 bytes read on the left are that pointer's value and not the record. `Equal("", "")` would then be false, against stumbra_test.go:44. Showing this needs a model of memory addresses, which this project does not have.
- Long-class storage (stumbra.go:45 and stumbra.go:112): the code stores the address of the string header `&s` and reads `len` raw bytes from there. The model stores the string's own bytes and takes the suffix as bytes [4, len) of them. What the code actually reads depends on memory layout, which is not modelled.
- Stumbra.Len: the length is stored in 32 unsigned bits. The code's `int32` overflow for lengths 2^31..2^32-1 is modelled separately by `StumbraAsWritten.Int32Conversion` (see Findings).
- Heap allocation, ownership of the tail buffer, its lifetime under the garbage collector, and pointer identity: the Inlined buffer is the value of the freshly allocated array, and records compare by value.
- The message text of `ErrTooLong` ("string is too long"): only the identity of the error is modelled.
- Records not built by `New`, other than the zero value `UmbraString{}`: the struct's fields are unexported, so callers hold no other records. Every read-side operation therefore requires `Valid`.
- `benchmarks/benchmark_test.go`: timing loops over random inputs. There is no behaviour to verify.
- `t.Parallel()` and the test-harness plumbing. `strumbra_test.go` repeats `stumbra_test.go` under another package name, so its two scenarios are the same two methods.

## Findings

| source | as written | input that shows it | evidently intended | confidence | as-written member | corrected member |
|---|---|---|---|---|---|---|
| stumbra.go:82 | compares the receiver's 8-byte buffer with itself | "abcde" vs "abcdf", with step 1 read as the `len` and `prefix` fields (see Left out): `Equal` is true. Taken literally, :74 already returns false for this pair | compare with `other.trailing` | high; not executed | `StumbraAsWritten.SelfAliasCounterexample` | `Stumbra.EqualCorrect` |
| stumbra.go:32 | `int32(len(s))` after a check against 2^32-1 | any string of 2^31 bytes: the stored length is -2^31 and the class is Short | store the length in an unsigned 32-bit field | high; not executed | `StumbraAsWritten.LengthWrapsNegative` | `Stumbra.New` |
| stumbra.go:65 | slices the nil tail of a Short record (length - 4 <= 0) | `New("")` then `Bytes()` panics | `prefix[:len]` | high; not executed | `StumbraAsWritten.BytesOfEmptyPanics` | `Stumbra.RoundTrip` |
| stumbra.go:99 | on a prefix tie, reads the nil tail of a Short operand against an Inlined one (likewise `suffix()` at stumbra.go:110 against a Long one) | "abcd" vs "abcde": `Compare` panics | a Short record's tail reads as zeros, its suffix as empty, giving -1 | high; not executed | `StumbraAsWritten.StrictPrefixCounterexample` | `Stumbra.CompareCorrect` |
