# wasmshield composition splitter in Dafny

This project models `decompose` and `split_composition`, the composition splitter of wasmshield
(`crates/wasmshield/src/decompose.rs`). The splitter takes a composed WebAssembly binary as an
opaque byte buffer. It scans left to right for the 20-byte header that every signed component
starts with:
- the WebAssembly magic `\0asm` (WebAssembly Core Specification, section 5.5.16);
- the component-model version and layer bytes `0d 00 01 00`;
- a custom section header (section 5.5.3 of the same specification) with declared size `0x75`
  and the name `signature`.

It returns the list of components. The first is the whole buffer. Each later one runs from one
header to the next, or to the end of the buffer.

The model has two modules:

- `Decompose` (`decompose.dfy`) holds the data model and the operations:
  - Bytes are `seq<bv8>`. A component is a byte range `Range(start, end)`.
  - `MatchesBelow` lists the header offsets a scan meets below a bound.
  - `Layout` gives, in closed form, the ranges the splitter outputs for a given match list.
  - `Split` is the specification of `split_composition`.
  - The Rust loop is modelled imperatively.
    - `SplitBelow` is a `while` loop over the offsets. It grows the component list, the bookmark
      and the counter, then performs the final push.
    - `ScanStep` is one iteration of the loop body.
    - `SplitBelow` is proved equal to the specification through the loop invariant `Scanned`. A
      ghost list of the pushed ranges ties the loop state to the closed form.
  - `SplitComposition` and `Decompose` are the two Rust functions.
- `DecomposeLemmas` (`decompose_lemmas.dfy`) proves what the split guarantees: count, order,
  contiguity, root and header-prefix properties.

The Rust loop bound `composition.len() - 20` is an unsigned subtraction. For a buffer shorter
than 20 bytes it panics in a debug build. In a release build it wraps, and the slicing in the
loop body then goes out of bounds. Either way the call panics, and `None` stands for that panic.

A buffer of at least 20 bytes with no header gives the one-element list `[composition]`. The
final push at line 36 always fires for a non-empty buffer, so the result is not the empty list.
The model follows the code here.

## Model

| member | source | states |
|---|---|---|
| Decompose.MatchesBelow | crates/wasmshield/src/decompose.rs:17-19 | the offsets a scan meets below the bound are strictly increasing, each lies below the bound, and each leaves room for the whole 20-byte header |
| Decompose.NestedTestIsSignatureTest | crates/wasmshield/src/decompose.rs:7-19 | the 4-byte magic test followed by the 20-byte header test holds exactly when the header starts at the offset, because the magic number is a prefix of the header |
| Decompose.HeaderTest | crates/wasmshield/src/decompose.rs:18-19 | the two nested slice comparisons of the loop body answer whether the header starts at offset `i` |
| Decompose.LayoutFirstMatch | crates/wasmshield/src/decompose.rs:20-24 | with one match at `i`, the split is the whole composition followed by the bytes from `i` to the end |
| Decompose.LayoutAfterMatchAtZero | crates/wasmshield/src/decompose.rs:25-29 | a second match after one at offset 0 adds no range of its own: the range [0, i) is dropped and only the final range moves to `i` |
| Decompose.LayoutNextMatch | crates/wasmshield/src/decompose.rs:25-30 | a further match `i` with a non-zero bookmark pushes [bookmark, i) and makes [i, len) the pending final range |
| Decompose.ReachedFirst | crates/wasmshield/src/decompose.rs:20-30 | on the first match the whole composition is pushed, the counter becomes 1 and the bookmark becomes the match offset |
| Decompose.ReachedNext | crates/wasmshield/src/decompose.rs:25-30 | on a later match with a non-zero bookmark, the bookmark lies below the match, [bookmark, i) is pushed, and counter and bookmark advance |
| Decompose.ReachedAfterZero | crates/wasmshield/src/decompose.rs:25-30 | on a later match with bookmark 0, which happens only when the only earlier match is at offset 0, nothing is pushed and counter and bookmark advance |
| Decompose.ScanMiss | crates/wasmshield/src/decompose.rs:17-19 | an offset where the header does not start leaves counter, bookmark and the pushed components unchanged |
| Decompose.ScanFirstMatch | crates/wasmshield/src/decompose.rs:20-30 | the loop state stays the prefix of the specified split after the first match |
| Decompose.ScanNextMatch | crates/wasmshield/src/decompose.rs:25-30 | the loop state stays the prefix of the specified split after a match that pushes a component |
| Decompose.ScanMatchAfterZero | crates/wasmshield/src/decompose.rs:25-30 | the loop state stays the prefix of the specified split after a match that pushes nothing |
| Decompose.ScanDone | crates/wasmshield/src/decompose.rs:35-38 | after the loop the bookmark is below the length exactly when the composition is non-empty, and the final push of the bytes from the bookmark completes the specified split |
| Decompose.ScanStep | crates/wasmshield/src/decompose.rs:18-31 | one loop iteration keeps the invariant: counter and bookmark are the number and the last of the matches so far, the components pushed are those the specification gives for them, and the list only grows by at most one pushed component |
| Decompose.SplitBelow | crates/wasmshield/src/decompose.rs:13-40 | the loop, followed by the final push, returns exactly the specified split for the offsets below the bound |
| Decompose.SplitComposition | crates/wasmshield/src/decompose.rs:6-41 | `split_composition` returns `Split(composition)`: a panic below 20 bytes, otherwise the specified components |
| Decompose.SplitCompositionSaturating | crates/wasmshield/src/decompose.rs:17 | with a saturating loop bound, a buffer shorter than the header comes back whole (empty for the empty buffer), and a longer buffer gives the same result as `split_composition` |
| Decompose.Decompose | crates/wasmshield/src/decompose.rs:2-4 | `decompose` returns what `split_composition` returns |
| DecomposeLemmas.MatchesAreHeaders | crates/wasmshield/src/decompose.rs:17-19 | an offset is recorded as a match if and only if it lies below the loop bound and the header starts there |
| DecomposeLemmas.ShortInputPanics | crates/wasmshield/src/decompose.rs:17 | every composition shorter than 20 bytes makes the unsigned loop bound underflow, so the call panics |
| DecomposeLemmas.HeaderAtEndIsMissed | crates/wasmshield/src/decompose.rs:17-19 | for every buffer of at least 20 bytes, a header starting at offset len - 20, which ends exactly at the end of the buffer, is not recorded as a match |
| DecomposeLemmas.NoHeaderNoMatch | crates/wasmshield/src/decompose.rs:17-19 | where the header starts at no offset below the bound, the scan records no match |
| DecomposeLemmas.OnlyHeaderAtEndIsMissed | crates/wasmshield/src/decompose.rs:17-38 | a buffer whose only header ends at its last byte is returned whole, as if it had no header |
| DecomposeLemmas.LoneHeaderIsMissed | crates/wasmshield/src/decompose.rs:17-38 | the buffer made of the 20-byte header alone carries the header at offset 0 and is still returned whole |
| DecomposeLemmas.NoMatchIffWhole | crates/wasmshield/src/decompose.rs:14-38 | the result is exactly `[composition]` if and only if the scan finds no header |
| DecomposeLemmas.RootIsWholeComposition | crates/wasmshield/src/decompose.rs:20-24 | with at least one match the result has at least two elements and the first is the whole composition |
| DecomposeLemmas.ComponentCount | crates/wasmshield/src/decompose.rs:20-38 | with k matches the result has k + 1 elements, except k when the first match is at offset 0 and another follows |
| DecomposeLemmas.SingleMatch | crates/wasmshield/src/decompose.rs:20-38 | with exactly one match at `m` the result is the whole composition followed by the bytes from `m` to the end, both the whole buffer when `m` is 0 |
| DecomposeLemmas.ChildRangesContiguous | crates/wasmshield/src/decompose.rs:26-37 | the ranges after the root start at matches, are non-empty, follow each other without gap or overlap, and the last one ends at the end of the buffer |
| DecomposeLemmas.ConcatContiguous | crates/wasmshield/src/decompose.rs:26-37 | the bytes of ranges that follow each other concatenate to the bytes from the first start to the last end |
| DecomposeLemmas.ChildrenCutConcat | crates/wasmshield/src/decompose.rs:26-37 | the bytes of the ranges after the root concatenate to the composition from the first kept match onwards |
| DecomposeLemmas.ChildrenFormSuffix | crates/wasmshield/src/decompose.rs:26-37 | the components after the root, concatenated, are a suffix of the composition: the bytes from the first kept match to the end |
| DecomposeLemmas.HeaderExcludesShift | crates/wasmshield/src/decompose.rs:8-12 | where the header starts at `i`, it does not also start at any of the next 19 offsets |
| DecomposeLemmas.HeadersDoNotOverlap | crates/wasmshield/src/decompose.rs:8-19 | two header occurrences lie at least 20 bytes apart |
| DecomposeLemmas.ChildStartsWithHeader | crates/wasmshield/src/decompose.rs:19-29 | the range from a match to the next match or to the end is at least 20 bytes long and starts with the header |
| DecomposeLemmas.ChildrenCutStartWithHeader | crates/wasmshield/src/decompose.rs:19-37 | when every match is a header, the bytes of every range after the root start with the header |
| DecomposeLemmas.ChildrenStartWithHeader | crates/wasmshield/src/decompose.rs:19-37 | every component after the root is at least 20 bytes long and begins with the signed-component header |
| DecomposeLemmas.LastComponentReachesEnd | crates/wasmshield/src/decompose.rs:29-37 | the bookmark ends below the buffer length, so the final push always fires, and the last component is the bytes from the last match (offset 0 without a match) to the end |

## Left out

- `src/bin/wasmshield.rs` is not part of this model. It holds argument parsing, file checks, printing and process exit.
- `crates/wasmshield/src/sbom.rs` and `crates/wasmshield/src/signature.rs` are not part of this model. They hold TOML configuration, the advisory-database download and audit, and the public-key signature checks.
- `src/commands/signature.rs` and `src/commands/sbom.rs` are not part of this model. They read files and hand each component to external verifiers.
- `clean_extracted` and `get_name`, which those callers use, are not defined in `decompose.rs` and are not modelled.
- `src/commands.rs` and `crates/wasmshield/src/lib.rs` hold module declarations only.
- The vet-information check, the local-package policy and the configuration schema do not appear in the code modelled here.
- The `to_vec` heap copies and the `Vec` are modelled as sequence values. Allocation and aliasing are not modelled.
- SplitComposition: `counter` (line 15) has no explicit type, so Rust gives it `i32`. The model's counter is unbounded. With 2^31 or more matches (buffers over about 40 GiB, since headers lie at least 20 bytes apart), `counter += 1` panics in a debug build. In a release build it wraps, and after 2^32 matches it is 0 again and line 24 would push the whole composition a second time. Neither overflow is modelled, so `ComponentCount`, `RootIsWholeComposition` and `ChildrenStartWithHeader` describe the unbounded counter on such buffers.
- SplitComposition: the release-build wrap-around of `len - 20` is modelled only through its outcome, a panic (`None`). The out-of-bounds slice that causes the panic in that build is not modelled step by step.

## Findings

Every lemma of `DecomposeLemmas` except `ShortInputPanics` is about buffers of at least 20
bytes. On those buffers `SplitCompositionSaturating` returns the same components as
`split_composition`, so those lemmas hold for the corrected variant as well. `ShortInputPanics`
is about shorter buffers and describes only the code as written: there the corrected variant
returns `[composition]`, or `[]` for the empty buffer, instead of panicking.

| source | as written | input that shows it | evidently intended | confidence | as-written member | corrected member |
|---|---|---|---|---|---|---|
| crates/wasmshield/src/decompose.rs:17 | the loop bound is the unsigned subtraction `composition.len() - SIGNATURE_DELIMITER.len()` | any buffer shorter than 20 bytes, such as the empty file or a bare 8-byte module header | a buffer too short to hold the header has no signed component and is returned whole, as with a saturating bound | not executed | DecomposeLemmas.ShortInputPanics | Decompose.SplitCompositionSaturating |
