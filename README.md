# hakrevdns: CIDR expansion and address increment, in Dafny

hakrevdns reads CIDR blocks, one per line. It expands each block into its
host addresses and sends those addresses to worker goroutines. The workers
do reverse DNS lookups and print the names found. This project models the
arithmetic core of that program, from `main.go`:

- `incIP` (module `Increment`) adds one to an address in place. It carries
  from the last byte towards the first, with byte wrap-around. The model is
  a method over an `array<byte>`. It is proved equal to `Successor`, a
  carry-rule definition. `Successor` is proved to be "value + 1 modulo
  256^n", reading the address as a big-endian number (module `Numbers`).
- `expandCIDR` (module `Expand`) parses the block. It walks from the
  network number with `incIP` for as long as the block contains the
  address. It then drops the first and last address.
  - The model is a method with that loop. It is proved equal to
    `Expansion`, a definition over `Block`, the ascending list of the
    block's addresses.
  - Lemmas state what the result is: the hosts with values network + 1 up
    to broadcast − 1, exactly the contained addresses minus those two.
  - They also state what happens on a parse error, on a /31 and on a /32.
- The parts of Go's `net` package that `expandCIDR` relies on (module
  `Net`):
  - `CIDRMask`, `IP.Mask` and `IPNet.Contains`.
  - The checks `ParseCIDR` makes once the text has become an address and a
    prefix length.
  - Go's `&` on bytes, as a bit-by-bit AND on numbers.
  - The key facts: masking rounds the address value down to a multiple of
    2^(host bits), and containment is the number range
    [network, network + 2^(host bits)).
- The per-address output of a worker (module `Output`). With the
  domain-only option this is `strings.TrimRight(name, ".")`. Otherwise it is
  the address, a tab and the name.

Addresses are byte strings, 4 bytes for IPv4 and 16 for IPv6. A parse
failure and the run-time panic of `ips[1:len(ips)-1]` are both values of
`Result`.

On trimming, `strings.TrimRight(a, ".")` removes every trailing dot, not
just one, and `Output.TrimRightDots` does the same ("a.b.." becomes "a.b").

On blocks with fewer than three addresses, the code's behaviour is what the
model states. A /31 (/127) gives an empty list, not an error. A /32 (/128)
holds a single address, so the slice `ips[1:0]` panics. The model returns
`Err(SliceBoundsOutOfRange(1, 0))` there.

## Model

| member | source | states |
|---|---|---|
| Increment.IncIP | main.go:69-76 | The loop leaves the array holding `Successor` of its old contents, and its value is the old value + 1 modulo 256^len (all-0xff wraps to all-zero). |
| Increment.SuccessorValue | main.go:69-76 | Read as a big-endian number, the carry-rule successor is the value + 1 modulo 256^n. |
| Increment.SuccessorCarry | main.go:70-75 | Bytes before the carry stop are unchanged, the carry-stop byte grows by one, and every byte after it (each 0xff) becomes 0. |
| Increment.CarryRuleIsSuccessor | main.go:70-75 | Conversely, any string that follows the carry rule from some byte is the successor. |
| Increment.CarryStop | main.go:72-74 | The loop stops at the last byte that is not 0xff. Every byte after it is 0xff. |
| Net.ParseCIDR | main.go:56-59 | The result is an error naming the input unless the width is 4 or 16 and 0 <= prefix <= 8·width. Otherwise the mask is `CIDRMask` and the network is the masked address. |
| Net.CIDRMaskBytes | main.go:56 | `CIDRMask(ones, len)`, Go's `net.CIDRMask(ones, 8·len)`, is 0xff at every byte wholly inside the prefix and 0 at every byte wholly past it. The one byte the prefix ends inside has exactly its top ones − 8i bits set: its value is 256 − 2^(8 − (ones − 8i)). |
| Net.Mask | main.go:62 | `IP.Mask`: byte i is ip[i] & mask[i]; the result is empty when the lengths differ (Go returns nil). |
| Net.ContainsBytes | main.go:62 | `Contains`, Go's `IPNet.Contains`, holds exactly when the widths of address, network and mask agree, and for every byte the network and the address agree on the bits the mask selects. |
| Net.MaskValue | main.go:62 | `ip.Mask(CIDRMask(ones))`, read as a number, is the address value rounded down to a multiple of 2^(host bits). |
| Net.MaskByteKeepsHighBits | main.go:62 | ANDing a byte with the mask byte for `ones` bits keeps its top `ones` bits and clears the rest. |
| Net.AndHighBits | main.go:62 | Go's `&` with a mask of high ones clears exactly the low bits below the mask. |
| Net.NetworkAligned | main.go:62 | The network number is a multiple of the block size, at most the address and within one block of it. The block fits in the address space. |
| Net.ContainsRange | main.go:62 | `ipnet.Contains(x)` for an address of the block's width holds exactly when its value is in [network, network + 2^(host bits)). |
| Expand.ExpandCIDR | main.go:55-67 | The loop walks from the network number while `Contains` holds. The method returns exactly `Expansion`: the parse error, the slice panic, or the block minus its first and last address. |
| Expand.Expansion | main.go:55-67 | A parse error is returned as is. A prefix equal to the full width panics on `ips[1:0]`. Any valid prefix from 1 up to one less than the full width succeeds. A valid prefix of 0 is excluded, because `expandCIDR` never returns there. |
| Expand.BlockStart | main.go:62 | The walk starts at `ip.Mask(ipnet.Mask)`, whose value is the address rounded down to the block size. |
| Expand.BlockEntry | main.go:62-64 | Entry i of the walk has the address width and the value network + i. |
| Expand.BlockAscending | main.go:62-64 | The walk visits addresses in strictly ascending order, so none twice. |
| Expand.BlockMembers | main.go:62-64 | The walk lists exactly the addresses of the block's width that the block contains. |
| Expand.BlockNext | main.go:62 | Inside the block, one `incIP` step moves to the next entry. |
| Expand.WalkPosition | main.go:62 | After k steps, the current address is contained exactly while k < 2^(host bits), and is then entry k. This includes the step that wraps around past all-0xff. |
| Expand.PastBlock | main.go:62 | With a prefix of at least one bit, the step after the broadcast address leaves the block, so the loop ends. |
| Expand.ExpansionHosts | main.go:65-66 | For a block of at least two addresses, 2^(host bits) − 2 hosts are listed. Host i has the address width and the value network + 1 + i. |
| Expand.ExpansionMembers | main.go:65-66 | An address is listed exactly when the block contains it and it is neither the network address nor the broadcast address. |
| Expand.ExpansionPointToPoint | main.go:66 | A /31 (/127) block lists nothing and is not an error. |
| Expand.ZeroPrefixContainsAll | main.go:62 | With prefix 0, every address and its `incIP` successor are contained, so the walk never ends. |
| ExpandCases.Slash30 | main.go:55-67 | 10.0.0.0/30 lists 10.0.0.1 and 10.0.0.2. |
| ExpandCases.Slash24 | main.go:55-67 | 192.168.1.0/24 lists 192.168.1.1 to 192.168.1.254, in order. |
| ExpandCases.Slash31And32 | main.go:66 | 10.0.0.0/31 lists nothing. 10.0.0.7/32 fails on the slice bounds [1:0]. |
| ExpandCases.BadPrefix | main.go:56-59 | A prefix of 33, or an address of 3 bytes, is a parse error naming the input. |
| ExpandCases.IncrementCarries | main.go:69-76 | 10.0.0.255 becomes 10.0.1.0, and 255.255.255.255 wraps to 0.0.0.0. |
| Output.TrimRightDots | main.go:99 | The result is a prefix of the name that does not end in '.', and everything removed is '.'. |
| Output.TrimRightUnique | main.go:99 | Those three properties determine the trimmed name uniquely. |
| Output.TrimRightIdempotent | main.go:99 | Trimming a trimmed name changes nothing. |
| Output.TrimRightExample | main.go:99 | "example.com." becomes "example.com", "a.b.." becomes "a.b", and "..." becomes "". |
| Output.Line | main.go:99-101 | In domain-only mode, the name without its trailing dots: a prefix of it, not ending in '.', with only dots removed. Otherwise the address, then space, tab and space, then the name. |
| Output.Report | main.go:92-103 | A lookup error prints nothing. Otherwise one line is printed per name, in order: the trimmed name in domain-only mode, else address, tab and name. |

## Left out

- Command-line flags, and the exit on a flag error: configuration only. `Output.Report` takes the domain-only option as a parameter.
- Reading stdin and the error message on stderr: I/O. A parse error is the `Err` value that would be printed.
- The work channel, the worker goroutines and the WaitGroup: concurrency. Across workers, lines for different addresses may interleave in any order. The model covers one address at a time.
- The resolver set-up and `LookupAddr`: network I/O. Its answer is the `Output.Lookup` parameter.
- The textual side of `net.ParseCIDR` (reading dotted-quad and IPv6 text, and the decimal prefix) and `IP.String`: addresses are modelled as byte strings. Go keeps an IPv4 address in a 16-byte form, and `IP.Mask` reduces it to 4 bytes. The model starts from the 4-byte form the walk uses.
- `IPNet.Contains` converts an IPv4-mapped IPv6 address to 4 bytes first (`To4`). The model compares at the block's own width. For an IPv6 block holding `::ffff:0:0/96` addresses, Go's walk could stop earlier than the model's.
- Expand.Expansion: a valid prefix of 0 is excluded by its precondition, like `ExpandCIDR`. `expandCIDR` has no result to describe there. `ExpansionHosts` and `ExpansionMembers` also start from a prefix of 1.
- Expand.ExpandCIDR: a prefix of 0 is excluded by its precondition. There the loop of `expandCIDR` never ends, and the program grows its list until memory runs out. `Expand.ZeroPrefixContainsAll` states why.
- Allocation limits are not modelled. For a large block, such as an IPv6 /64, `Expansion` is `Ok` with 2^64 − 2 entries. The `append` at main.go:63 runs out of memory long before it gets that far.
- The panic of `ips[1:0]` on a /32 or /128 is modelled as the value `Err(SliceBoundsOutOfRange(1, 0))`, not as a crash of the program.
