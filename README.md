# TargetTriple: build-system and Cargo spellings of a platform triple

This project is a Dafny model of `TargetTriple` from crate_universe of
rules_rust. A `TargetTriple` wraps the platform triple as Bazel spells it. It
gives two views of that triple:

- the Bazel spelling, kept verbatim;
- the spelling `rustc` and `cargo metadata` understand. Bazel knows the
  operating systems `nixos` and `drive_linux`, but rustc does not, so they are
  rewritten to `linux`.

The rewrite walks the fixed ordered table `[("nixos", "linux"), ("drive_linux",
"linux")]`. The first alias that occurs anywhere in the triple, as a plain
substring, has every occurrence replaced, and no later rule is tried. If no
alias occurs, the triple is returned unchanged. The display form is the Bazel
spelling alone when the two spellings agree. Otherwise it is
`<bazel> (cargo: <cargo>)`. Equality and ordering are derived from the single
string field.

Files:

- `strings.dfy`, module `Strings`: the two operations of Rust's `str` that the
  code calls. `Contains` is `str::contains` and `ReplaceAll` is `str::replace`
  with a string pattern (leftmost, non-overlapping, every occurrence). `Split`
  and `Join` are a second description of `replace`: cut at the occurrences,
  then glue the pieces back with the replacement. Three lemmas pin the cuts
  down: the pieces glue back to the input, no piece contains the pattern, and
  no occurrence starts inside a piece that a cut follows, so each cut is the
  leftmost one left.
- `target_triple.dfy`, module `TargetTriples`: the datatype `TargetTriple` with
  `ToBazel`, `ToCargo`, `Render` and `Cmp`, the constructor function
  `FromBazel`, the alias table `TargetMapping` and its first-match walk
  `Remap`, and lexicographic string comparison `LexCompare`.
- `target_triple_cases.dfy`, module `TargetTripleCases`: particular triples
  (`nixos`, `drive_linux`, both aliases, no alias), each derived from the
  general lemmas.

Two facts about the code shape the model:

- `from_bazel` accepts any `String`, the empty one included, so `FromBazel`
  has no precondition.
- `TargetTriple` derives no `Hash` (crate_universe/src/utils/target_triple.rs:5),
  so hashing is not modelled.

Rust's `String` ordering compares UTF-8 bytes. Dafny's `string` holds Unicode
scalar values. UTF-8 byte order equals code-point order, so `LexCompare` over
characters gives the same order.

## Model

| member | source | states |
|---|---|---|
| `TargetTriples.FromBazel` | crate_universe/src/utils/target_triple.rs:11-17 | `from_bazel` wraps any string, empty included, and `to_bazel` returns it unchanged |
| `TargetTriples.Remap` | crate_universe/src/utils/target_triple.rs:24-30 | if rule `k` is the first table rule whose alias occurs, the result replaces every occurrence of that alias by its canonical name. If no alias occurs, the input is returned unchanged |
| `TargetTriples.ToCargoWithoutAlias` | crate_universe/src/utils/target_triple.rs:24-30 | a triple containing neither `nixos` nor `drive_linux` has `to_cargo` equal to `to_bazel` |
| `TargetTriples.ToCargoNixos` | crate_universe/src/utils/target_triple.rs:24-27 | a triple containing `nixos` has every `nixos` replaced by `linux`, whether or not `drive_linux` occurs too |
| `TargetTriples.ToCargoDriveLinux` | crate_universe/src/utils/target_triple.rs:24-28 | a triple containing `drive_linux` but not `nixos` has every `drive_linux` replaced by `linux` |
| `TargetTriples.ToCargoChangesIffAlias` | crate_universe/src/utils/target_triple.rs:19-31 | the Cargo spelling differs from the Bazel one exactly when `nixos` or `drive_linux` occurs |
| `TargetTriples.RenderPlainIffSame` | crate_universe/src/utils/target_triple.rs:36-41 | the display form is the bare Bazel spelling exactly when both spellings agree |
| `TargetTriples.RenderLabelled` | crate_universe/src/utils/target_triple.rs:38-40 | when the spellings differ, the display form is `bazel (cargo: cargo)` |
| `TargetTriples.RenderLabelledIffAlias` | crate_universe/src/utils/target_triple.rs:34-42 | the display form carries the `(cargo: …)` label exactly when the triple contains an alias |
| `TargetTriples.RenderRoundTrip` | crate_universe/src/utils/target_triple.rs:36-40 | the display form starts with the Bazel spelling, and the Cargo spelling can be read back out of it |
| `TargetTriples.LexCompareEqualIff` | crate_universe/src/utils/target_triple.rs:5 | string comparison says `Equal` exactly for equal strings |
| `TargetTriples.LexCompareReverse` | crate_universe/src/utils/target_triple.rs:5 | swapping the operands reverses the comparison |
| `TargetTriples.LexCompareTransitive` | crate_universe/src/utils/target_triple.rs:5 | `Less` is transitive |
| `TargetTriples.LexCompareLessIff` | crate_universe/src/utils/target_triple.rs:5 | `Less` is the textbook lexicographic order: a proper prefix, or a smaller character at the first difference |
| `TargetTriples.CmpEqualIff` | crate_universe/src/utils/target_triple.rs:5-7 | two triples compare `Equal` exactly when they are equal, and they are equal exactly when their strings are |
| `TargetTriples.CmpTotalOrder` | crate_universe/src/utils/target_triple.rs:5-7 | the derived order of triples is antisymmetric and transitive |
| `Strings.ContainsIffOccurs` | crate_universe/src/utils/target_triple.rs:26 | `contains` holds exactly when the pattern occurs at some index |
| `Strings.Split` | crate_universe/src/utils/target_triple.rs:27 | the pieces between the leftmost non-overlapping occurrences glue back to the input |
| `Strings.SplitPiecesFree` | crate_universe/src/utils/target_triple.rs:27 | no piece contains the pattern, so every occurrence is a cut point |
| `Strings.SplitCutsLeftmost` | crate_universe/src/utils/target_triple.rs:27 | no occurrence of the pattern starts inside a piece followed by a cut, so each cut is the leftmost occurrence left, as Rust's left-to-right scan chooses |
| `Strings.ReplaceAllIsJoinOfSplit` | crate_universe/src/utils/target_triple.rs:27 | `replace` equals cutting at every occurrence and gluing with the replacement |
| `Strings.ReplaceAllWithoutMatch` | crate_universe/src/utils/target_triple.rs:27-30 | without an occurrence, `replace` returns its input unchanged |
| `Strings.ReplaceAllWithMatch` | crate_universe/src/utils/target_triple.rs:27 | with an occurrence and a different replacement, `replace` changes its input |
| `TargetTripleCases.SingleNixos` | crate_universe/src/utils/target_triple.rs:24-27 | a triple `a + "nixos" + b` in which no other `nixos` starts (none in `b`, none starting in `a`) gets `linux` in its place, and `a` and `b` are kept |
| `TargetTripleCases.SingleDriveLinux` | crate_universe/src/utils/target_triple.rs:24-28 | a triple `a + "drive_linux" + b` without `nixos`, in which no other `drive_linux` starts (none in `b`, none starting in `a`), gets `linux` in its place, and `a` and `b` are kept |
| `TargetTripleCases.NixosExample` | crate_universe/src/utils/target_triple.rs:20-27 | `x86_64-unknown-nixos-gnu` becomes `x86_64-unknown-linux-gnu` for Cargo |
| `TargetTripleCases.NixosRenderExample` | crate_universe/src/utils/target_triple.rs:36-40 | `x86_64-unknown-nixos-gnu` displays as `x86_64-unknown-nixos-gnu (cargo: x86_64-unknown-linux-gnu)` |
| `TargetTripleCases.DriveLinuxExample` | crate_universe/src/utils/target_triple.rs:24-28 | `aarch64-unknown-drive_linux-gnu` becomes `aarch64-unknown-linux-gnu` for Cargo |
| `TargetTripleCases.BothAliasesExample` | crate_universe/src/utils/target_triple.rs:24-27 | in `nixos-drive_linux` only the `nixos` rule applies, giving `linux-drive_linux` |
| `TargetTripleCases.LinuxExample` | crate_universe/src/utils/target_triple.rs:36-39 | `x86_64-unknown-linux-gnu` is its own Cargo spelling and displays as itself |

## Left out

- The serde `Serialize`/`Deserialize` derives and `#[serde(transparent)]`: foreign library code. The serialized form is the bare Bazel string.
- `std::fmt::Formatter` and `write!`: `Render` returns the formatted string instead of writing to a formatter, and formatter errors are not modelled.
- The `Debug` and `Clone` derives, and the `#[cfg(test)]` gating of `from_bazel`: compiler and library plumbing with no behaviour to verify.
- `Strings.ReplaceAll` and `Strings.Split` require a non-empty pattern. Rust's `replace` with an empty pattern inserts the replacement around every character. The alias table holds only non-empty aliases, so that case is never reached.
- `Strings.Contains` covers only the `&str` pattern the code uses, not Rust's other `Pattern` kinds (chars, closures).
- Parsing a triple into architecture, vendor, OS and ABI: the code matches raw substrings, and the model does the same.
