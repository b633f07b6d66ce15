# Verified model of the QUIC certificate and stream helpers

This project models `src/quic/common.rs` of a QUIC server and client. That file holds the helpers that load TLS material and read streams. The model has three parts:

- **Diagnostic escaper** (`bytes_escape`). Each byte of a buffer is replaced by what Rust's `std::ascii::escape_default` gives for it, and the pieces are joined in order. The rules are:
  - tab, CR and LF become `\t`, `\r` and `\n`;
  - `\`, `'` and `"` get a backslash in front;
  - other printable ASCII bytes pass through;
  - every other byte becomes `\xNN` with lower-case hex digits.

  `Escape.EscapeByte` and `Escape.Escape` state these rules as functions. `Escape.BytesEscape` is the source's loop, proved equal to `Escape`. The lemmas prove:
  - escaping distributes over concatenation;
  - every output byte is printable;
  - each input byte gives one, two or four output bytes;
  - output equals input exactly when no byte needs escaping;
  - nothing is lost. `Escape.Unescape` is an inverse written only for the proof, not part of the system; the lemmas show it undoes `Escape`, so `Escape` is injective.
- **Private-key selection** (`read_certs_key`). The file system and the two `rustls_pemfile` scanners are function parameters. The model keeps the source's order of steps:
  1. read the certificate file;
  2. read the key file;
  3. a key path whose extension is exactly `der` gives the raw key bytes;
  4. otherwise the first PKCS#8 item;
  5. otherwise the first RSA item;
  6. otherwise the error "error reading key".

  I/O and PEM errors are passed on unchanged. The extension test follows Rust's `Path::file_name` and `Path::extension`, modelled for Unix paths in module `RustPath`. Independence lemmas say which scanner results cannot affect the answer, for example that a `.der` key never depends on either scanner.
- **Stream-read ceiling** (`read_recv_stream`). The effective limit is the caller's value, or 64·1024 = 65536 bytes when none is given.

Files: `types.dfy` (`byte`, `Option`, `Result`), `escape.dfy`, `rust_path.dfy`, `certs_key.dfy`, `recv_stream.dfy`.

The model follows the code in these details:
- the not-found error text is "error reading key";
- `'` and `"` are escaped as well as `\`;
- a caller-supplied limit of 0 is used as it is.

In the code every failure of `read_certs_key` is one boxed error value, so a caller cannot tell an I/O failure from a PEM failure. The closed datatype `CertsKey.KeyError` adds that split (`IoError`, `PemError`, `KeyNotFound`) to name where each failure came from. `CertsKey.Message` gives the text the boxed error would carry.

## Model

| member | source | states |
|---|---|---|
| Escape.HexDigit | src/quic/common.rs:51 | the digit for a nibble value is a lower-case hex digit, and reading it back gives the value |
| Escape.EscapeByte | src/quic/common.rs:51 | one byte's escape is 1, 2 or 4 printable bytes; it is the byte itself exactly when the byte passes through, 2 bytes exactly for tab/CR/LF/backslash/quotes, any longer form starts with a backslash, and every other byte becomes `\x` and two lower-case hex digits whose value is the byte |
| Escape.Escape | src/quic/common.rs:49-53 | the escaped buffer is at least as long as the input and at most four times as long, and every byte of it is printable ASCII (0x20-0x7E) |
| Escape.BytesEscape | src/quic/common.rs:48-56 | the loop that extends `escaped` byte by byte returns exactly the concatenated per-byte escapes of the whole request |
| Escape.EscapeAppend | src/quic/common.rs:49-53 | escaping a concatenation is the concatenation of the escapes, so escaping keeps order and prefixes |
| Escape.EscapeLengthExact | src/quic/common.rs:50-53 | the output has the input's length exactly when every input byte passes through unescaped |
| Escape.EscapeIdentity | src/quic/common.rs:51 | escaping is the identity exactly on buffers of printable bytes other than backslash and the two quotes |
| Escape.UnescapeOne | src/quic/common.rs:51 | any escape read off the front of a buffer is exactly the escape of the byte it yields |
| Escape.UnescapeOneOfEscape | src/quic/common.rs:51 | each byte's escape is read back as that byte whatever follows, so the per-byte escapes form a prefix-free code |
| Escape.UnescapeEscape | src/quic/common.rs:49-53 | unescaping the escape of any buffer gives the buffer back |
| Escape.EscapeUnescape | src/quic/common.rs:49-53 | any text that unescapes to a buffer is that buffer's escape |
| Escape.EscapeInjective | src/quic/common.rs:49-53 | two buffers with the same escaped form are equal |
| RustPath.LastIndexOf | src/quic/common.rs:27 | the index found is the last occurrence of the character, or -1 when it does not occur |
| RustPath.FileName | src/quic/common.rs:27 | a file name, when there is one, is a normal component: non-empty, not `.` or `..`, with no separator |
| RustPath.SplitAtLastDot | src/quic/common.rs:27 | a name without a dot has no stem and is all extension; a split name is stem, dot and a dot-free extension with a non-empty stem; no extension only for `..` or a name whose one dot is its first character |
| RustPath.Extension | src/quic/common.rs:27 | an extension, when there is one, is a dot-free text that follows a non-leading dot at the end of the file name; `ExtensionIff` and `ExtensionNone` give the converse |
| RustPath.ExtensionIff | src/quic/common.rs:27 | a path has extension `e` exactly when its file name ends in a dot followed by `e`, `e` has no dot, and text comes before that dot |
| RustPath.ExtensionNone | src/quic/common.rs:27 | a path has no extension exactly when it has no file name or its name has no dot after the first character |
| RustPath.FileNameOfName | src/quic/common.rs:27 | a bare normal name is its own file name |
| RustPath.FileNameOfJoin | src/quic/common.rs:27 | the file name of `dir/name` is `name` for every directory text |
| RustPath.FileNameTrailingSeparator | src/quic/common.rs:27 | a trailing `/` does not change the file name |
| RustPath.FileNameTrailingCurDir | src/quic/common.rs:27 | a trailing `/.` does not change the file name |
| RustPath.FileNameParentDir | src/quic/common.rs:27 | a path ending in `/..` has no file name and no extension |
| CertsKey.IsDerPath | src/quic/common.rs:27 | a DER key path has a file name that ends in `.der` after a non-leading dot; `IsDerPathIff` gives both directions |
| CertsKey.SelectKey | src/quic/common.rs:27-43 | a DER path never fails; every key returned is the raw key bytes or an item one of the scanners found; a PEM failure is an error a scanner returned, never an I/O error; precedence is stated by `DerKeyVerbatim`, `Pkcs8First`, `RsaFallback` and `KeyProvenance` |
| CertsKey.ReadCertsKey | src/quic/common.rs:20-45 | when both reads succeed, the call succeeds exactly when the key selection does: on success the certificate is the certificate file's bytes unchanged and the key is the selected one, and a selection failure (PEM error or "error reading key") is returned unchanged; an I/O failure is the error of one of the two reads |
| CertsKey.DerKeyFileLoadsVerbatim | src/quic/common.rs:24-28 | with both reads successful and a `.der` key path, the result is the certificate file's bytes and the key file's bytes, unchanged, whatever the PEM scanners return |
| CertsKey.ReadsOnlyTwoFiles | src/quic/common.rs:24-26 | the result depends on the file system only through the certificate path and the key path |
| CertsKey.EndsWithDer | src/quic/common.rs:27 | a file name has extension `der` exactly when it is longer than four characters and ends in `.der` |
| CertsKey.IsDerPathIff | src/quic/common.rs:27 | the key is taken as raw DER exactly when the file name is longer than four characters and ends in `.der` |
| CertsKey.DerPathExamples | src/quic/common.rs:27 | `certs/key.der` and `key.der/` are DER paths |
| CertsKey.UpperCaseDerIsNotDer | src/quic/common.rs:27 | the test is case-sensitive: `key.DER` is not a DER path |
| CertsKey.HiddenDerIsNotDer | src/quic/common.rs:27 | the hidden file `.der` has no extension and is not a DER path |
| CertsKey.ParentOfDerIsNotDer | src/quic/common.rs:27 | `key.der/..` is not a DER path |
| CertsKey.Message | src/quic/common.rs:38 | the not-found failure carries the text "error reading key"; I/O and PEM failures carry their cause unchanged |
| CertsKey.ReadFailurePropagates | src/quic/common.rs:24-26 | a failed certificate read is returned first and unchanged; otherwise a failed key read is returned unchanged |
| CertsKey.DerKeyVerbatim | src/quic/common.rs:27-28 | for a `.der` key path the key is the raw key-file bytes, and the answer is the same for every pair of PEM scanners |
| CertsKey.Pkcs8First | src/quic/common.rs:30-32 | for a non-DER path with PKCS#8 items, the first PKCS#8 item is the key, and the answer is the same for every RSA scanner |
| CertsKey.Pkcs8ErrorPropagates | src/quic/common.rs:30 | a PKCS#8 scan error is returned unchanged |
| CertsKey.RsaFallback | src/quic/common.rs:33-40 | when the PKCS#8 scan is empty, an RSA scan error is returned unchanged, else the first RSA item is the key, else the result is the not-found error |
| CertsKey.KeyProvenance | src/quic/common.rs:27-43 | every key returned is the raw bytes of a DER path, the first PKCS#8 item, or (only if no PKCS#8 item) the first RSA item; the not-found error happens exactly when the path is not DER and both scans are empty |
| RecvStream.EffectiveLimit | src/quic/common.rs:62 | with no limit given the ceiling is 65536 bytes; a given limit is used unchanged |

## Left out

- `generate_self_signed` (src/quic/common.rs:8-18): key generation and DER serialisation happen inside a certificate library that is not part of this model.
- File reads (`std::fs::read`) are a parameter `fs` from path to bytes-or-error; the model does not cover the file system itself.
- PEM decoding (`rustls_pemfile::pkcs8_private_keys` and `rsa_private_keys`) is a parameter from bytes to a list of DER payloads or an error. The PEM format itself is not modelled.
- `RecvStream::read_to_end` and its over-limit check run inside the QUIC library, which is not part of this model. So is the `RecvError` wrapping and its message text (src/quic/common.rs:63-65). Only the limit passed to the read is modelled.
- `async`/`.await` suspension: every modelled operation is synchronous.
- `tracing` log lines and the lossy UTF-8 conversion in the escaper's log line (src/quic/common.rs:11, 54) are diagnostics with no effect on results.
- `RustPath.FileName`: models Unix paths only. Windows prefixes and `\` separators are not modelled. Paths are character strings rather than raw `OsStr` bytes.
- `rustls::Certificate` and `rustls::PrivateKey` are modelled as plain byte wrappers. Zeroing key material on drop is not modelled.
