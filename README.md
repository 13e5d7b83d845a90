# Saitek Pro Flight Switch Panel bridge — verified model

app.js bridges a Saitek Pro Flight Switch Panel (a HID device) to a
flight simulator's HTTP property tree. On every report from the panel it
does four things:
1. It decodes the report bytes into the set of active switch keys.
2. It compares that set with the previous report's set.
3. It records the new set as the previous one.
4. For every entry of the panel table whose key changed, in table order, it
   works out the value to send. It then POSTs `{"value": v}` to each of the
   entry's property paths. For the landing gear it also writes a feature
   report that sets the gear lights.

This project models that pipeline in Dafny and proves its behaviour:

- `bits.dfy` (module `Bits`) models `getBitIndexFlipped`. It keeps JavaScript's
  32-bit signed bitwise arithmetic exactly. Every int32 is held as its unsigned
  32-bit pattern:
  - `(f << 8) | b` is `(f * 256 + b) % 2^32`;
  - `x > 0` is `0 < x < 2^31`;
  - on a positive value, `x & 1` is `x % 2` and `x >> 1` is `x / 2`;
  - `^` is the bitwise exclusive or `Xor`, defined bit by bit on naturals.

  The method `GetBitIndexFlipped` has the source's three loops. It is proved
  equal to the recursive specification `BitIndexFlipped`. The
  decoding theorems are proved for reports of at most three bytes:
  - the result is the set bits of the big-endian value;
  - the result is symmetric in its two arguments;
  - comparing a report with itself gives nothing.
- `symdiff.dfy` (module `SymDiff`) models `Array.prototype.diff`. It is the
  forward filter followed by the backward filter.
- `panel.dfy` (module `Panel`) holds the 20-entry `PANEL` table in
  declaration order.
- `resolver.dfy` (module `Resolver`) holds `on`, `processFlippedSwitch` and
  `change`. The HTTP requests and device writes are returned as a sequence of
  `Action`s, in the order the source issues them:
  - `Post(path, value)`: `value` is a boolean or an integer;
  - `Feature(bytes)`: a feature report written to the device.

  A reference resolver keyed by a per-entry `Kind` (magneto position, gear,
  1/0 toggle, boolean toggle) is proved to agree with the name-based dispatch
  on every table entry.
- `session.dfy` (module `Session`) models the `device.on('data')` handler.
  `presentControls` and `previousControls` are fields of the class
  `PanelSession`. The nested `forEach` loops become the method
  `DispatchChanges`. Two recursive functions specify them:
  - `ForEachEntry` follows the loops literally;
  - `InPanelOrder` processes each changed entry once, in table order.

  Both take the per-entry step as a function parameter. The properties of
  the loops hold for any step. `Handler(present)` plugs in
  `processFlippedSwitch` for the current report.

The model keeps three quirks of app.js as written:
- A gear flip from up to down puts both gear keys (2 and 3) in the change set.
  Both entries are named "Gear", so the gear rule runs twice. It emits two
  identical POSTs and two identical feature writes (`Session.GearLowered`).
- The 1/0 encoding for the cowl flaps and the dashboard light is chosen by
  comparing names.
- The bit test `diff & 0x01 > 0` parses as `diff & (0x01 > 0)`, which is
  `diff & 1`. The model uses what that evaluates to.

## Model

| member | source | states |
|---|---|---|
| `Bits.ShiftIn` | app.js:124-125 | One accumulation step stays a 32-bit pattern: the low byte is the new byte, and the rest is the old value with its top byte shifted out |
| `Bits.Field` | app.js:123-125 | The accumulated field is always a 32-bit pattern |
| `Bits.GetBitIndexFlipped` | app.js:122-135 | The loops compute `BitIndexFlipped(a, b)`, in strictly ascending order. For inputs of at most 3 bytes, `i` is in the result iff bit `i` differs between the two big-endian values |
| `Bits.FieldIsLow32Bits` | app.js:123-125 | The field is the big-endian value modulo 2^32: bytes before the last four are lost |
| `Bits.ShortFieldIsBigEndian` | app.js:123-125 | For at most 3 bytes the field equals the big-endian value, which is below 2^24 and so non-negative as an int32 |
| `Bits.BigEndianBound` | app.js:124 | A report of n bytes denotes a value below 2^(8n) |
| `Bits.XorBit` | app.js:126 | Bit k of the exclusive or is set iff bit k differs between the operands |
| `Bits.XorCommutes` | app.js:126 | The exclusive or is symmetric |
| `Bits.XorSelf` | app.js:126 | x ^ x is 0 |
| `Bits.XorZero` | app.js:123-126 | 0 ^ y is y, so the call with `[]` decodes the report itself |
| `Bits.XorBound` | app.js:126 | The exclusive or of two values below 2^k is below 2^k |
| `Bits.ScanMembers` | app.js:127-133 | Below the sign bit, the shifting loop collects exactly the set bits of `diff`, each offset by the starting count |
| `Bits.ScanIncreasing` | app.js:127-133 | The collected positions are at or above the starting count and strictly ascending |
| `Bits.NegativeDiffGivesNothing` | app.js:129 | An exclusive or with bit 31 set is negative in JavaScript, so the loop never runs and the result is empty |
| `Bits.SignBitReportIsEmpty` | app.js:122-135 | A 4-byte report whose first byte is 0x80 or more sets bit 31 of the accumulated int32, which is then negative, so the report decodes to no active control |
| `Bits.FlippedBitsDiffer` | app.js:122-135 | For inputs of at most 3 bytes, `i` is in `getBitIndexFlipped(a, b)` iff bit `i` differs between the two big-endian values |
| `Bits.ScanOfXor` | app.js:126-133 | For operands below 2^24, the loop over their exclusive or yields exactly the positions where they differ |
| `Bits.FlippedIsSymmetric` | app.js:122-135 | `getBitIndexFlipped(a, b)` equals `getBitIndexFlipped(b, a)`, for any lengths |
| `Bits.FlippedWithItselfIsEmpty` | app.js:122-135 | `getBitIndexFlipped(a, a)` is empty |
| `Bits.DecodeReport` | app.js:197 | For at most 3 bytes, the decoded set is exactly the set bits of the report's big-endian value. It is strictly ascending (no duplicates), every key is below 8 × length, and the empty report decodes to nothing |
| `SymDiff.Without` | app.js:50-51 | Filtering keeps exactly the elements of `a` not in `b`, is no longer than `a`, and keeps `a` duplicate-free |
| `SymDiff.Diff` | app.js:48-53 | `x` is in `a.diff(b)` iff it is in exactly one of `a` and `b` |
| `SymDiff.DiffNoDuplicates` | app.js:48-53 | The difference of two duplicate-free arrays is duplicate-free |
| `SymDiff.WithoutCovered` | app.js:50 | Filtering out a superset leaves nothing |
| `SymDiff.DiffSelf` | app.js:48-53 | `a.diff(a)` is empty |
| `SymDiff.DiffCommutes` | app.js:48-53 | As sets, `a.diff(b)` equals `b.diff(a)` |
| `Panel.TableShape` | app.js:8-28 | The table has 20 entries. Each has at least one path and a key below 24, and none has a key from 4 to 7 |
| `Panel.KeysUnique` | app.js:8-28 | Each key sits at exactly one table position, so no two entries share a key |
| `Panel.TableGroups` | app.js:8-28 | Exactly the first four entries are named "Magneto", exactly entries 5 and 6 are named "Gear", and exactly entries 13 and 14 are named "Cowl" or "Dashboard Light" |
| `Resolver.Change` | app.js:80-98 | One POST per path, in path order, each with the same value |
| `Resolver.ResolvedByKind` | app.js:150-192 | Dispatch by name resolves every table entry as its kind says |
| `Resolver.MagnetoDispatch` | app.js:152-173 | A magneto entry dispatches once to the magnetos path, with its declaration position as value (0 for key 13, 1 for 15, 2 for 14, 3 for 0), iff its key is active. Otherwise nothing happens |
| `Resolver.UnknownMagnetoIgnored` | app.js:168-169 | A "Magneto" descriptor with any other key dispatches nothing |
| `Resolver.GearDispatch` | app.js:174-184 | Key 3 active: post `true`, then feature `[0x00, 0x07]`. Otherwise key 2 active: post `false`, then `[0x00, 0x38]`. Otherwise nothing. Both gear entries give the same result |
| `Resolver.ToggleDispatch` | app.js:186-191 | Any other entry posts one value per path, in order: 1/0 for the cowl flaps and dashboard light, and "key is active" as a boolean for the rest |
| `Resolver.FeatureOnlyFromGear` | app.js:150-192 | Only the gear entries emit feature reports |
| `Resolver.FanOut` | app.js:19-22 | De-Ice posts to its 4 paths and the dashboard light to its 2, in order |
| `Session.PanelSession.constructor` | app.js:139-140 | Both control lists start empty |
| `Session.PanelSession.HandleReport` | app.js:195-218 | Afterwards `presentControls` and `previousControls` both equal the decoded report, whatever is dispatched. The actions are the nested loops over panel × difference, which equal each changed entry processed once, in panel order |
| `Session.DispatchChanges` | app.js:209-217 | The nested loops produce `ForEachEntry`. For a duplicate-free difference, each changed entry is processed exactly once, in table order |
| `Session.TwoReports` | app.js:195-206 | After two reports, the previous set is the second report's decoding |
| `Session.IncreasingHasNoDuplicates` | app.js:197 | An ascending decoded list has no duplicates |
| `Session.ProcessedOnce` | app.js:211-216 | With a duplicate-free difference, an entry is processed once if its key changed, else not at all |
| `Session.DispatchInPanelOrder` | app.js:209-217 | With a duplicate-free difference, the nested loops equal the reference "changed entries once each, in panel order" |
| `Session.ForEachChangeAppend` | app.js:211-216 | The inner loop over a split change set equals the inner loop over each part in turn |
| `Session.ChangeSkipsOtherKey` | app.js:211-216 | The inner loop of an entry ignores a changed key other than its own, wherever it stands |
| `Session.UnmatchedKeyIgnored` | app.js:209-217 | A changed key that no entry has (such as 4–7) adds no actions to the nested loops, wherever it stands in the change set |
| `Session.OnlyPanelKeysMatter` | app.js:209-217 | Only which panel keys changed matters, not the order of the change set |
| `Session.ReportDispatch` | app.js:197-217 | For a report of at most 3 bytes, an entry is processed iff its bit differs from its presence in the previous set: once each, in table order |
| `Session.ChangesOnce` | app.js:203-217 | For two duplicate-free key lists, the nested loops over their difference process each changed entry once, in table order |
| `Session.InPanelOrderAppend` | app.js:209 | Processing a split table equals processing each part in turn |
| `Session.InPanelOrderNone` | app.js:212 | A table part with no changed key contributes nothing |
| `Session.InPanelOrderWindow` | app.js:209-217 | When all changed keys lie in one stretch of the table, only that stretch contributes |
| `Session.FirstChange` | app.js:203-217 | When only entry i's key is active and the previous set is empty, the handler processes exactly entry i |
| `Session.AdjacentChange` | app.js:203-217 | When a switch moves from entry lo's key to entry lo+1's key, the handler processes entry lo and then entry lo+1, once each |
| `Session.StartupMagnetoOff` | app.js:156-157 | First report {13} against an empty previous set: exactly one post of 0 to the magnetos path |
| `Session.MagnetoLeftToRight` | app.js:152-173 | Previous {15}, current {14}: key 15 is ignored and exactly one post of 2 is sent |
| `Session.GearLowered` | app.js:174-184 | Previous {2}, current {3}: the gear rule runs for both gear entries. It emits post `true` and feature `[0x00, 0x07]`, twice |

## Left out

- HID device enumeration, opening the device, and the `error` handler: these are device I/O. Report bytes are a parameter of `HandleReport`, and feature writes are returned as `Feature` actions.
- Log-level argument parsing and the start-up found/not-found message: process plumbing.
- Building the HTTP request: host, port, headers, `Content-Length`, JSON encoding, response status handling and the `uncaughtException` handler registered on each call. These are network I/O. Only the posted `(path, value)` is modelled.
- All logging. This includes the "turned ON/OFF" messages and the warning for an unknown magneto key, which is modelled as dispatching nothing.
- Asynchronous completion of requests: the model has no HTTP responses, so none can affect later reports.
- The commented-out device writes at the end of app.js.
- `Bits.DecodeReport`: it links the decoded keys to the big-endian integer only for reports of at most 3 bytes. That is the panel's layout (keys 0–23). Longer reports are still modelled exactly as JavaScript computes them. `Bits.FieldIsLow32Bits` and `Bits.NegativeDiffGivesNothing` describe that behaviour: bytes are shifted out, and bit 31 makes the value negative.
- `Bits.FlippedBitsDiffer`: the same limit of at most 3 bytes per input, for the same reason.
- `Bits.GetBitIndexFlipped`: its bit-by-bit ensures carries the same limit of at most 3 bytes. Its equality with `BitIndexFlipped` holds for any length.
- `Session.ReportDispatch`: the same limit of at most 3 bytes per report.
