# vSphere → Talos hardware-UUID translator, in Dafny

The vSphere infrastructure provider creates a VM for each machine request and
reports the VM's hardware UUID back to the orchestrator. The booted Talos node
later reports its own UUID, and the two must match exactly, or the VM boots and
is never linked to its request. vSphere prints the 16 UUID bytes in order.
The SMBIOS System UUID that Talos reads stores the first three fields of
section 4.1.2 of RFC 4122 little-endian: time_low (bytes 0-3), time_mid
(4-5) and time_hi_and_version (6-7).

`convertVSphereUUIDToTalosFormat` bridges the two forms. It:

1. removes every `-`;
2. requires exactly 32 characters to remain;
3. hex-decodes them to 16 bytes;
4. reverses bytes 0-3, 4-5 and 6-7 in place;
5. prints the result with `%08x-%04x-%04x-%04x-%012x`, giving the lowercase
   8-4-4-4-12 form of section 3 of RFC 4122.

This project models that function and what it relies on. It proves that the
function rejects exactly the inputs it should and prints a well-formed
UUID. It proves that the function moves exactly the bytes it should, that
applying it twice restores the original, and that the repository's test
vectors come out as expected.

Files:

- `wrappers.dfy`: `Option` and `Result`.
- `hex.dfy` (module `Hex`): hex digits, Go's `hex.DecodeString`, and the
  per-byte lowercase rendering `Encode`. `Encode` is the reference that every
  printed UUID is compared against.
- `goformat.dfy` (module `GoFormat`): the Go pieces the `Sprintf` call
  that builds the result relies on.
  These are unsigned `<<` (with wrap-around) and bitwise `|`, written out on
  naturals, and the `fmt` verb `%0Nx`.
- `uuid.dfy` (module `Uuid`): hyphen stripping, the 8-4-4-4-12 layout, the
  field swap `ToTalosOrder`, the rendering `Format`, and
  `ConvertVSphereUUIDToTalosFormat`.
- `properties.dfy` (module `UuidProperties`): properties that span several
  calls.
- `vectors.dfy` (module `UuidVectors`): the literal test cases.

Input strings: a Go string is a sequence of bytes, and `len` counts bytes.
Here each `char` of the input stands for one byte of the Go string. A
multi-byte UTF-8 character is therefore given as its bytes. Stripping `-`
byte by byte matches `strings.ReplaceAll`, because the byte 0x2D never occurs
inside a multi-byte UTF-8 sequence.

The return value is Go's `(string, error)` pair: `Converted(uuid, err)`, where
`err == None` stands for a nil error. The two `fmt.Errorf` results become
`LengthError(length)` and `HexError(cause)`. `cause` is what
`hex.DecodeString` reports: the first byte that is not a hex digit, or an odd
length.

What the function accepts and reports:

- It does not insist on the 8-4-4-4-12 layout or on lowercase. It removes
  every `-` wherever it is and however many there are, checks only that 32
  characters remain, and accepts uppercase digits. So
  `"422413C357C896D1C481C58DBB837D2D"` and `"4224-13c3..."` with hyphens
  anywhere are accepted.
- Its errors carry the stripped length or the decoder's first bad byte, not
  the input string.

## Model

| member | source | states |
|---|---|---|
| Uuid.StripHyphens | internal/pkg/provider/uuid.go:23 | the result holds no `-`, and every other character occurs exactly as often as in the input |
| Uuid.StripAppend | internal/pkg/provider/uuid.go:23 | stripping works piece by piece, so the characters that stay keep their order |
| Hex.DecodeString | internal/pkg/provider/uuid.go:29-32 | decoding succeeds iff the length is even and every character is a hex digit of either case; each byte is the value of its two digits; a failure names the first non-digit, or reports an odd length only when every character is a digit |
| Uuid.FaultInInput | internal/pkg/provider/uuid.go:24-32 | once 32 characters remain, a decoding failure is never an odd length: it always names a non-hex byte, and that byte occurs in the caller's input |
| Hex.LowerDigit | internal/pkg/provider/uuid.go:44 | the digit printed for a nibble is a lowercase hex digit that decodes back to that nibble |
| Hex.DecodeEncode | internal/pkg/provider/uuid.go:29 | decoding the per-byte lowercase rendering of any byte sequence gives back those bytes |
| Hex.EncodeDecode | internal/pkg/provider/uuid.go:29 | rendering the bytes decoded from an even-length lowercase hex string gives back that string |
| GoFormat.Shl | internal/pkg/provider/uuid.go:45-49 | an unsigned shift stays below 2^width, and loses nothing when the shifted value fits |
| GoFormat.BitOrDisjoint | internal/pkg/provider/uuid.go:45-49 | or-ing a value into bits that are all zero is addition |
| GoFormat.Pack16 | internal/pkg/provider/uuid.go:46-48 | `uint16(hi)<<8 \| uint16(lo)` is the big-endian value of the two bytes |
| GoFormat.Pack32 | internal/pkg/provider/uuid.go:45 | the shifted-and-or-ed `uint32` is the big-endian value of the four bytes |
| GoFormat.Pack48 | internal/pkg/provider/uuid.go:49 | the shifted-and-or-ed `uint64` is the big-endian value of the six node bytes |
| GoFormat.HexDigits | internal/pkg/provider/uuid.go:44 | `%x` prints lowercase digits with no leading zero (exactly `0` for zero) whose value, read back most significant first, is exactly n |
| GoFormat.ZeroPadded | internal/pkg/provider/uuid.go:44 | `%0Nx` prints lowercase digits spelling exactly n: N of them when n fits, otherwise the unpadded `%x` digits, never cut |
| GoFormat.FixedWidthValue | internal/pkg/provider/uuid.go:44 | the N low hex digits of n spell n modulo 16^N |
| GoFormat.PaddedIsFixedWidth | internal/pkg/provider/uuid.go:44 | `%0Nx` of a value below 16^N prints exactly its N low hex digits |
| GoFormat.PaddedBytes | internal/pkg/provider/uuid.go:44-49 | `%0{2k}x` of k bytes packed big-endian prints the two zero-padded digits of each byte in turn |
| Uuid.Canonical | internal/pkg/provider/uuid.go:44 | the reference rendering is lowercase 8-4-4-4-12, and it reads back as exactly the bytes it was made from |
| Uuid.CanonicalOfBytes | internal/pkg/provider/uuid.go:44 | every lowercase 8-4-4-4-12 string is the reference rendering of its own bytes |
| Uuid.ToTalosOrder | internal/pkg/provider/uuid.go:34-41 | output bytes 0-3 are input bytes 3,2,1,0, bytes 4-5 are 5,4, bytes 6-7 are 7,6, and bytes 8-15 are unchanged; each of the three fields is reversed |
| Uuid.ToTalosOrderInvolution | internal/pkg/provider/uuid.go:36-40 | swapping twice restores the bytes |
| Uuid.ToTalosOrderFixedPoints | internal/pkg/provider/uuid.go:36-40 | the swap leaves the bytes unchanged iff each of the three swapped fields is a byte palindrome |
| Uuid.Format | internal/pkg/provider/uuid.go:44-50 | the `Sprintf` over the five packed fields is the per-byte lowercase rendering: 36 characters, `-` at 8, 13, 18 and 23, lowercase hex elsewhere |
| Uuid.ConvertVSphereUUIDToTalosFormat | internal/pkg/provider/uuid.go:21-51 | length error (carrying the stripped length) iff the stripped input is not 32 characters long, even if it is not hex; otherwise a hex error iff a stripped character is not a hex digit, naming a non-hex character of the input; the string is empty on any error; on success a lowercase canonical UUID whose bytes are the input's bytes with the three fields swapped |
| UuidProperties.ConvertIsCanonical | internal/pkg/provider/uuid.go:34-50 | every accepted input yields the reference rendering of its swapped bytes |
| UuidProperties.ConvertTwice | internal/pkg/provider/uuid.go:36-40 | converting any accepted input twice yields the lowercase canonical rendering of its original bytes |
| UuidProperties.ConvertInvolution | internal/pkg/provider/uuid.go:36-40 | converting a lowercase canonical UUID twice returns it unchanged, with no error |
| UuidProperties.ConvertKeepsTail | internal/pkg/provider/uuid.go:41-49 | the last 17 characters of the output (clock_seq and node) are the input's bytes 8-15 printed |
| UuidProperties.ConvertKeepsCanonicalTail | internal/pkg/provider/uuid.go:20 | for a lowercase canonical input, the last two groups of the output equal those of the input |
| UuidProperties.ConvertMovesCharacters | internal/pkg/provider/uuid.go:13-20 | for a lowercase canonical input, output character i is input character `SourceIndex(i)`: digit pairs mirror inside the first three groups, and everything else stays put |
| UuidProperties.MovedCharacter | internal/pkg/provider/uuid.go:34-50 | character i of the printed swapped bytes is character `SourceIndex(i)` of the printed original bytes |
| UuidProperties.ConvertSwapsText | internal/pkg/provider/uuid.go:13-20 | for a lowercase canonical input the conversion succeeds and equals `SwapText`, an independent character-level definition: the digit pairs of each of the first three groups in reverse order, the rest copied |
| UuidProperties.ConvertChanges | internal/pkg/provider/provision_test.go:179-181 | an accepted input whose swapped fields are not all byte palindromes is never returned unchanged |
| UuidProperties.ConvertFixedPoints | internal/pkg/provider/uuid.go:36-40 | a lowercase canonical input comes back unchanged iff all three swapped fields are byte palindromes |
| UuidVectors.RealExampleFromLogs | internal/pkg/provider/uuid_test.go:16-21 | `422413c3-57c8-96d1-c481-c58dbb837d2d` becomes `c3132442-c857-d196-c481-c58dbb837d2d` |
| UuidVectors.AnotherRealExample | internal/pkg/provider/uuid_test.go:22-27 | `42248383-124d-4f71-06fa-6b6d74a978c1` becomes `83832442-4d12-714f-06fa-6b6d74a978c1` |
| UuidVectors.ProvisioningExample | internal/pkg/provider/provision_test.go:152-156 | `42241622-655a-890a-761d-7b177e9de0db` becomes `22162442-5a65-0a89-761d-7b177e9de0db` |
| UuidVectors.InvalidLength | internal/pkg/provider/uuid_test.go:28-33 | `422413c3-57c8` fails with a length error of 12 and an empty string |
| UuidVectors.RejectsFirstNonHex | internal/pkg/provider/uuid.go:23-32 | any 36-character string with `-` exactly at 8, 13, 18 and 23 whose first character is not a hex digit is rejected with a hex error naming that character, and the returned string is empty |
| UuidVectors.InvalidHex | internal/pkg/provider/uuid_test.go:34-39 | `xxxxxxxx-xxxx-xxxx-xxxx-xxxxxxxxxxxx` fails with a hex error on `x` and an empty string |
| UuidVectors.RealVectorsChange | internal/pkg/provider/provision_test.go:179-181 | the vSphere and Talos forms of the provisioning test's two vectors differ |

## Left out

- Error message text: the `fmt.Errorf` strings and the text of the decoder's
  error are modelled as the variants `LengthError(length)` and
  `HexError(cause)`.
- `hex.DecodeString` comes from Go's standard library. It is modelled from its
  implementation in `hex.Decode`: pairs are decoded left to right, the first byte that
  is not a digit is reported, and an odd length is reported only when every
  byte is a digit. Its source is not part of this model.
- The request identity resolver (instance name equals the request ID). In
  this repository it is a call into the orchestrator's client library
  (`provision.NewContext(...).GetRequestID()`), and no logic of the
  repository's own is involved.
- The configuration validator. `internal/pkg/config/config.go` only declares
  a struct with YAML tags; there is no validation code to model. YAML
  loading is library I/O.
- The hypervisor and status calls around the translator (`vm.UUID(ctx)`,
  `SetMachineUUID`, VM creation). These are foreign I/O; the translator's
  input is taken as a parameter.
- Unicode: inputs are byte strings, one `char` per byte. There is no
  decoding of UTF-8.
