/** Machine integers and the small result types shared by every component. */
module Machine {
  type byte = x: int | 0 <= x < 0x100
  type u16 = x: int | 0 <= x < 0x1_0000
  type u32 = x: int | 0 <= x < 0x1_0000_0000

  type i32 = x: int | -0x8000_0000 <= x < 0x8000_0000

  datatype Option<+T> = None | Some(value: T)

  /** The EFI_STATUS values the transports hand to their callers. */
  datatype Status =
    | Success
    | InvalidParameter
    | NoResponse
    | DeviceError
    | Timeout
    | NotReady
    | NotFound
    | Unsupported
    | NoMapping
    | OutOfResources

  function Min(a: int, b: int): (m: int)
    ensures m <= a && m <= b && (m == a || m == b)
  {
    if a <= b then a else b
  }

  lemma MulMono(a: nat, b: nat, c: nat)
    requires a <= b
    ensures a * c <= b * c && c * a <= c * b
  {
    assert b * c == a * c + (b - a) * c;
    assert (b - a) * c >= 0;
  }

  lemma DivideFacts(n: nat, d: nat)
    requires d > 0
    ensures n / d * d <= n < n / d * d + d
    ensures n == n / d * d + n % d && n % d < d
  {
    assert n == n / d * d + n % d;
  }
}
