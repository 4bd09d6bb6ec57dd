# myanon: value-level core in Dafny

myanon rewrites a database dump. It replaces the values of configured
fields with deterministic pseudonyms that keep the format of the
original values. This project models the value-level part of
`main/myanon.c` and proves properties of it:

- **C string handling** (module `CString`, `cstring.dfy`).
  - `remove_quote` copies a string without its single quotes into a
    zeroed buffer of `size` bytes.
  - `mystrcpy` zeroes `size` bytes, then copies at most `size - 1` bytes
    with `strncpy`.
  - Both work on byte arrays in place. The C library calls they use
    (`memset`, `strncpy`) are small methods of their own.
- **Token transform** (module `Anonymizer`, `anonymizer.dfy`).
  - `make_readable_hash` writes the 32-byte keyed digest of the token
    into the result buffer. It then maps each of the first `len` bytes
    into an alphabet: `a`-`z`, or `1`-`9` for INTHASH.
  - `anonymize_token` picks the length for each mode. For EMAILHASH it
    also writes `@` and copies the domain (`memcpy`). Then it writes the
    terminator.
  - The pure specification `Pseudonym` gives the resulting bytes. The
    lemmas state alphabet, length, layout and determinism.
- **End-of-run reporting in `main`** (module `Report`, `report.dfy`).
  - The registry is modelled as a sequence of field records. Each record
    has a key, a hit counter and JSON sub-fields.
  - The warning loop reports every field and JSON sub-field with zero
    hits. A field's JSON warnings come before its own warning.
  - The statistics loop lists each top-level field's counter. It sums
    those counters into an `unsigned long`.

The keyed digest (HMAC-SHA-256, RFC 2104 over FIPS 180-4 SHA-256) is not
modelled. It is the parameter `hmac`: any function from a key and a
message to exactly 32 bytes. The result buffer `res_st` is an
uninitialised local variable. Its earlier contents are the parameter
`junk`, and its capacity is `|junk|`.

An EMAILHASH rule with `len > 32` is a special case. `make_readable_hash`
then maps result-buffer bytes that `hmac_sha256` never wrote. So the
pseudonym is deterministic only when `len <= 32`:
`PseudonymDeterministic` proves that case, and
`LongEmailReadsUnwrittenBytes` shows that for longer rules the buffer's
earlier contents change the result.

## Model

| member | source | states |
|---|---|---|
| `CString.Memset` | main/myanon.c:85 | the first `n` bytes become NUL and the rest of the array is unchanged |
| `CString.RemoveQuote` | main/myanon.c:77-96 | the first `size` bytes of `dst` equal `QuoteStripped(src, size)`, and the bytes after them are unchanged |
| `CString.WithoutQuotes` | main/myanon.c:87-95 | removing quotes keeps every byte that is not a quote, with the same multiplicity, and leaves no quote |
| `CString.QuoteStripped` | main/myanon.c:82-95 | `dst` after `remove_quote` holds exactly `size` bytes and none of them is a quote |
| `CString.WithoutQuotesIdempotent` | main/myanon.c:89-93 | stripping quotes a second time changes nothing |
| `CString.QuoteStrippedTerminated` | main/myanon.c:85-87 | `dst` contains a NUL exactly when the stripped string is shorter than `size`; in that case `dst` reads back as the whole stripped string |
| `CString.Strncpy` | main/myanon.c:66 | `dest[..n]` is the string `src` cut to `n` bytes and padded with NUL, and the rest is unchanged |
| `CString.MyStrcpy` | main/myanon.c:63-68 | returns `dest`; `dest[..size]` is at most `size - 1` bytes of `src` padded with NUL, and the rest is unchanged |
| `CString.BoundedCopy` | main/myanon.c:65-66 | the `size` bytes after `mystrcpy` always end in NUL |
| `CString.BoundedCopyReadsBack` | main/myanon.c:63-68 | the copy reads back as the source string cut to `size - 1` bytes |
| `Anonymizer.Readable` | main/myanon.c:126 | a mapped byte lies in `[begin, end]`, and its offset from `begin` is the digest byte modulo the alphabet size |
| `Anonymizer.ResultLen` | main/myanon.c:143-155 | TEXTHASH and INTHASH lengths are `min(32, len)`; the EMAILHASH length is `len + 1 + domainlen` |
| `Anonymizer.Pseudonym` | main/myanon.c:140-157 | length `ResultLen`; TEXTHASH bytes are in `a`-`z` and INTHASH bytes in `1`-`9`; EMAILHASH has `len` letters, then `@`, then the domain verbatim; each byte within the digest is that digest byte mapped into the alphabet |
| `Anonymizer.PseudonymDeterministic` | main/myanon.c:122-157 | the same secret, token and rule give the same pseudonym whatever the buffer held before, for every rule except EMAILHASH with `len > 32` |
| `Anonymizer.LongEmailReadsUnwrittenBytes` | main/myanon.c:122-152 | for EMAILHASH with `len > 32`, some other earlier contents of the buffer give a different pseudonym |
| `Anonymizer.IntHashHasNoZero` | main/myanon.c:154-157 | an INTHASH pseudonym never contains the digit `0` |
| `Anonymizer.MakeReadableHash` | main/myanon.c:117-128 | each of the first `len` bytes of the buffer becomes the digest byte (or the earlier byte, beyond 32) mapped into `[begin, end]`; later bytes hold the digest or are unchanged |
| `Anonymizer.Memcpy` | main/myanon.c:151 | the domain is copied at the given offset, and every other byte is unchanged |
| `Anonymizer.AnonymizeToken` | main/myanon.c:130-173 | the result length is `ResultLen`; the first `len` bytes are `Pseudonym` of the token's digest; the byte at `len` is NUL; bytes after it hold the raw digest or the earlier buffer contents |
| `Report.JsonWarningsExact` | main/myanon.c:258-264 | a sub-field warning is issued for exactly the sub-fields with zero hits, and it names the parent |
| `Report.UnmatchedWarnings` | main/myanon.c:254-270 | the loop emits `Warnings(infos)`; a field warning appears exactly for fields with zero hits, and a JSON warning exactly for sub-fields with zero hits |
| `Report.FieldWarningExact` | main/myanon.c:266-269 | a field warning for `key` appears exactly when some field named `key` has zero hits |
| `Report.JsonWarningExact` | main/myanon.c:256-265 | a JSON warning for (`key`, `jkey`) appears exactly when field `key` has a sub-field `jkey` with zero hits |
| `Report.WarningsGroupedByField` | main/myanon.c:254-270 | warnings are grouped by field in registry order; each group holds the field's JSON warnings and then its own |
| `Report.StatsReport` | main/myanon.c:273-286 | one line per top-level field with its counter, in order; the total is the sum of the top-level counters modulo 2^64, and exactly that sum when the sum fits |
| `Report.SumHitsBound` | main/myanon.c:279-284 | every top-level counter is at most the unbounded sum of the counters |
| `Report.TotalZeroIffNoHits` | main/myanon.c:275-285 | the unbounded sum of the counters is 0 exactly when no top-level field had a hit; JSON sub-field hits do not count |
| `Report.TotalZeroIffAllWarned` | main/myanon.c:254-285 | if keys are unique, the unbounded sum of the counters is 0 exactly when every top-level field gets a warning |
| `Report.PrintedTotalZeroIffNoHits` | main/myanon.c:275-285 | when the sum fits in an `unsigned long`, the printed total is 0 exactly when no top-level field had a hit, and every counter is at most the printed total |
| `Report.PrintedTotalCanWrap` | main/myanon.c:275-285 | the printed total can wrap around: two fields with 2^63 hits each give a printed total of 0 |

## Left out

- HMAC-SHA-256 (`hmac_sha256`) is not modelled. It is the parameter `hmac`, constrained only to return 32 bytes.
- Timing is not modelled: `get_ts_in_ms`, `gettimeofday`, the `anon_time` accumulation and the printed run times. They depend on the wall clock.
- Command-line parsing (`getopt`), `setvbuf` buffering, `config_load`, `config_parse` and `dump_parse` are not modelled. They are I/O, and the parsers are generated from grammar files outside `main/myanon.c`. Building the registry and incrementing the hit counters happen inside those parsers, so they are not modelled either.
- `fprintf` output formatting is not modelled, and neither are `config_error` and `dump_error`. Warnings and statistics lines are values (`Warning`, `FieldCount`), not text.
- The `if (stats)` test around the statistics block is not modelled. `StatsReport` is that block.
- `mymalloc` and the hash-table teardown loop after the reports are not modelled. They only manage memory.
- The `default:` branch of `anonymize_token` does not exist in the model. The rule's mode is one of the three modelled modes.
- `myanon.h` is not part of this model. The result buffer's capacity is a parameter, which must hold the 32-byte digest, the pseudonym and its terminator. Its bytes are taken as `unsigned char`, which is the type `hmac_sha256` writes.
- `unsigned long` is taken as 64 bits wide.
- CString.RemoveQuote: `dst` and `src` must be different arrays. The model also requires `src` to be NUL-terminated, although the C loop can stop earlier once `size` bytes are written.
- CString.MyStrcpy: `dest` and `src` must be different arrays (overlapping `strncpy` is undefined). `size` must be at least 1, because `size - 1` wraps around in `size_t` otherwise.
