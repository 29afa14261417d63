# MemoryMappedIO accessor, modelled in Dafny

`mmio.c` is a Ruby extension. Its module `MemoryMappedIO` has two operations:

- `read(address, type)` loads a byte, halfword or word from a physical address.
- `write(address, type, value)` stores such a value, then reads the location back.

Each call opens `/dev/mem`, maps the 4096-byte page that contains the address, and accesses the target through the mapped pointer.

This project models the pure logic of those calls:

- **Address split** (`Window`). The window base is `target & ~MAP_MASK` and the offset is `target & MAP_MASK`. The bitwise `&` is defined bit by bit on naturals (`Bits.And`). The unsigned `~` is defined as in section 6.5.3.3 of the C standard: the maximum value of the promoted type minus the operand (`Bits.Not`). The two masks are then proved to compute "round down to a multiple of 4096" and "remainder modulo 4096".
- **Width code** (`AccessType`). `read_access_type` lower-cases the first byte of the Ruby string. The `switch` then dispatches over `'b'`, `'h'` and `'w'`.
- **Sized load and store** (`Memory`). Physical memory is a map from addresses to bytes. A load is zero-extended from an unsigned type. A store truncates the value to the width and changes only the bytes it covers.
- **The two operations** (`Mmio.Read`, `Mmio.Write`). They are pure functions from the memory and an `Env` to an `Outcome`. The `Env` says whether this call's `open` and `mmap` succeed. The `Outcome` is one of three things: a returned value with the new memory, a process exit, or an unspecified result.

Modelling assumptions:

- The platform is LP64, so `unsigned long` is 8 bytes (`Window.WordBytes`). Addresses and written values are below 2^64 (`Window.ULong`).
- Multi-byte values are little-endian. The source fixes neither the word size nor the byte order.
- `tolower` behaves as in the "C" locale: only 'A'..'Z' change. The Ruby interpreter may set `LC_CTYPE` from the environment. That cannot change which width a code selects, but it can change the character reported with an illegal read code.

The write `switch` has no `default` branch. So, unlike the read path, an unknown width code on a write is not fatal: no store happens and the uninitialised `read_result` is returned. `Mmio.Write` models that as `Unspecified(mem)`: memory is unchanged and no value is invented.

The failure order follows the code. The width code is computed first but dispatched only after `open` and `mmap` succeed. So a bad code combined with a failed `open` exits with status 1, not 2.

## Model

| member | source | states |
|---|---|---|
| Bits.And | mmio.c:115-117 | C's `&` on unsigned values is never above either operand; its meaning is pinned by the mask lemmas below |
| Bits.Not | mmio.c:115 | C's `~` on an unsigned type stays in the type, and a value shares no bit with its complement (`Bits.AndNotIsZero`) |
| Bits.AndNotIsZero | mmio.c:115 | a value and its complement in an n-bit type have no bit in common |
| Bits.AndLowMask | mmio.c:117 | masking with 2^k - 1 gives the remainder modulo 2^k |
| Bits.AndClearsLow | mmio.c:115 | masking an n-bit value with 2^n - 2^k (ones from bit k upward) clears exactly its low k bits |
| Bits.AndHighMask | mmio.c:115 | masking an n-bit value with 2^n - 2^k subtracts its remainder modulo 2^k, so it rounds down to a multiple of 2^k |
| Window.WindowMask | mmio.c:41-42 | `~MAP_MASK` in a 64-bit `unsigned long` is a multiple of 4096 and equals 2^64 - 4096: all ones except the low 12 bits |
| Window.MasksDisjoint | mmio.c:115-117 | `~MAP_MASK` and `MAP_MASK` share no bit, so the base and the offset take disjoint bits of the target |
| Window.WindowBase | mmio.c:115 | the mapped file offset `target & ~MAP_MASK` is a multiple of 4096, is at most the target, and lies within 4096 bytes below it |
| Window.WindowOffset | mmio.c:117 | the in-window offset `target & MAP_MASK` equals target mod 4096, so it is below 4096 |
| Window.VirtualAddress | mmio.c:113-118 | the returned pointer (mapped base plus offset) designates exactly the target address, from a page-aligned base |
| Window.WindowBaseIsRoundDown | mmio.c:115 | every page boundary at or below the target is at or below the window base, so the base is the greatest such boundary |
| Window.SameWindow | mmio.c:115 | two targets get the same window exactly when they lie in the same 4096-byte page |
| Window.CoversIffWithinPage | mmio.c:115-117 | an access of n bytes fits the single mapped page exactly when target mod 4096 + n is at most 4096, that is, when it does not run past the page's end |
| AccessType.ToLower | mmio.c:122 | `tolower` never returns an upper-case letter and changes only 'A'..'Z', each to its lower-case letter |
| AccessType.AccessCode | mmio.c:120-123 | the code is the first byte of the string lower-cased (never upper-case, changed only if it was 'A'..'Z'), and NUL for an empty string; `SelectsWidthIff` and `EmptyCodeIsIllegal` say which widths that selects |
| AccessType.DecodeWidth | mmio.c:68-81 | the width `switch` selects width w exactly for w's lower-case code; every other code falls to `default` |
| AccessType.DecodeCodeOf | mmio.c:69-77 | each width's code selects that width |
| AccessType.SelectsWidthIff | mmio.c:120-123 | a string selects width w exactly when its first character is the lower- or upper-case code of w, so codes are case-insensitive and only the first character counts |
| AccessType.EmptyCodeIsIllegal | mmio.c:122 | an empty string reads as its NUL terminator and selects no width |
| Memory.Load | mmio.c:69-77 | an n-byte unsigned load is below 2^(8n), so byte and halfword reads are zero-extended |
| Memory.Store | mmio.c:96-107 | a store changes only the n bytes it covers, and no address appears or disappears |
| Memory.LoadFrame | mmio.c:69-77 | a load depends only on the n bytes it covers |
| Memory.LoadAfterStore | mmio.c:96-106 | the reload right after a store returns the stored value mod 2^(8n) |
| Memory.StoreTruncates | mmio.c:96-105 | storing v has the same effect as storing v mod 2^(8n), so the bits above the width are dropped |
| Memory.LoadElsewhereAfterStore | mmio.c:96-107 | a store does not change a load of any range that does not overlap it |
| Mmio.Map | mmio.c:64-66 | the mapping step yields a pointer exactly when both `open` and `mmap` succeed, and that pointer designates the target from a page-aligned base |
| Mmio.Read | mmio.c:60-84 | a failed open or mmap exits with status 1, whatever the code. After a successful mapping, an unknown code exits with status 2 and the offending lower-cased character. Otherwise the call returns the zero-extended load of the selected width at the target and leaves memory unchanged |
| Mmio.Write | mmio.c:86-110 | a failed open or mmap exits with status 1. An unknown code leaves memory unchanged with an unspecified result. Otherwise the call returns writeval mod 2^(8n), and memory reads back that value at the target while every other byte is unchanged |
| Mmio.ReadAfterWrite | mmio.c:96-106 | after a successful write, a read at the same address with any code for the same width returns the truncated written value |
| Mmio.WriteLeavesOthers | mmio.c:96-107 | a write does not change what a read of a non-overlapping location returns |
| Mmio.NarrowReadsZeroExtend | mmio.c:69-74 | after a successful mapping, a byte read returns a value below 2^8 and a halfword read a value below 2^16 |
| Mmio.UnmappedCallsExitOne | mmio.c:130-135 | when `open` or `mmap` fails, read and write both exit with status 1, whatever the target and the code |
| Mmio.IllegalReadExitsTwo | mmio.c:78-80 | once the mapping succeeds, a read with a code other than b/h/w terminates with exit status 2 |
| Mmio.WordScenario | mmio.c:104-106 | writing 0xDEADBEEF at 0x1000 with 'w' returns 0xDEADBEEF, and a read with 'W' returns it too |
| Mmio.ByteScenario | mmio.c:96-98 | writing 0x1FF at 0x1003 with 'b' stores and returns 0xFF, and a read with 'B' returns 0xFF |

## Left out

- Mmio.Read: requires, only when `open` and `mmap` succeed, that an access with a valid width fits in the mapped page and that the bytes it covers exist (`Mmio.AccessOk`). The source checks neither. An access that runs past the 4096-byte mapping, or onto absent memory, faults or hits hardware-defined behaviour, and that is not modelled. When the mapping fails no access happens, and the model covers every target and code.
- Mmio.Write: has the same `Mmio.AccessOk` precondition as `Mmio.Read`, under the same condition and for the same reason.
- `open("/dev/mem", O_RDWR | O_SYNC)` and `mmap` are operating-system calls. Only whether each succeeds is modelled, through `Mmio.Env`. The `FATAL` diagnostic (line, file, errno, strerror) is reduced to exit status 1.
- The "Illegal data type" message is reduced to the offending code carried by `Mmio.Fault.IllegalDataType` and exit status 2.
- Ruby glue is not modelled: `NUM2ULONG` and its range exceptions, `ULONG2NUM`, `StringValuePtr` and the `rb_define_*` registration in `Init_mmio`. Integers reach the model already as `unsigned long` values (below 2^64).
- `read_target` stores the `unsigned long` in a signed `off_t`. The mask expression converts it back to unsigned, so the split is unaffected. Whether `mmap` accepts an offset of 2^63 or more is left to `Env.windowMaps`.
- `tolower` of a byte of 0x80 or above reaches `tolower` as a negative `int` when `char` is signed. The model treats such bytes as non-letters, as the "C" locale does.
- Hardware side effects of memory-mapped registers and `O_SYNC` uncached access are not modelled. Memory is plain storage, so the write path's reload returns what was just stored.
- Alignment faults of unaligned halfword or word accesses on strict-alignment processors are not modelled.
- Resource lifetime is not modelled. The descriptor is never closed and the mapping is never unmapped, which does not affect the values computed.
- Concurrent callers are not modelled. There is no shared state at this layer.
- The mismatched `method_write` prototype (mmio.c:46 against mmio.c:86) is a declaration issue and has no behaviour to model.
