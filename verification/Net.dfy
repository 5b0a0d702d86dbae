/** Integer widths and small wrappers shared by every component of the daemon. */
module Net {

  /** `unsigned short` port numbers, kept in host order. */
  type Port = p: nat | p < 65536

  /** `unsigned int` / `uint32_t` values: lease timestamps, lifetimes, SEQ counters. */
  type U32 = n: nat | n < 0x1_0000_0000

  type Byte = n: nat | n < 256

  /** IPv4 addresses and masks. */
  type Addr = bv32

  /** Protocol numbers as they arrive in requests; only TCP and UDP are accepted by the firewall. */
  type Proto = n: nat | n < 256

  const IPPROTO_TCP: Proto := 6
  const IPPROTO_UDP: Proto := 17

  datatype Option<+T> = None | Some(value: T)

  /** Decimal digits, as printed by %hu and %u. */
  function Decimal(n: nat): (s: string)
    ensures s != [] && forall c | c in s :: '0' <= c <= '9'
  {
    if n < 10 then [DigitChar(n)] else Decimal(n / 10) + [DigitChar(n % 10)]
  }

  function DigitChar(d: nat): char
    requires d < 10
  {
    '0' + d as char
  }

  /** `x + y` on 32-bit unsigned operands. */
  function Add32(x: U32, y: U32): (r: U32)
    ensures r == x + y || r == x + y - 0x1_0000_0000
  {
    if x + y < 0x1_0000_0000 then x + y else x + y - 0x1_0000_0000
  }

  /** `snprintf` / `strlcpy` into a buffer of `size` bytes. */
  function Cut(s: string, size: nat): (r: string)
    requires size > 0
    ensures r <= s && (|s| < size ==> r == s) && |r| < size
  {
    if |s| < size then s else s[..size - 1]
  }

  function Reverse<T>(s: seq<T>): (r: seq<T>)
    ensures |r| == |s|
  {
    if s == [] then [] else [s[|s| - 1]] + Reverse(s[..|s| - 1])
  }

  lemma {:induction false} ReverseConcat<T>(a: seq<T>, b: seq<T>)
    ensures Reverse(a + b) == Reverse(b) + Reverse(a)
  {
    if b == [] {
      assert a + b == a;
    } else {
      assert (a + b)[..|a + b| - 1] == a + b[..|b| - 1];
      ReverseConcat(a, b[..|b| - 1]);
    }
  }
}
