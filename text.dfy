/**
 * Character and string helpers shared by the client and server models.
 * A C string is modelled as the `seq<char>` of the characters before its
 * terminating NUL; fixed-size buffers are modelled where they matter.
 */
module Text {

  datatype Option<T> = None | Some(value: T) {
    function GetOr(default: T): T {
      if Some? then value else default
    }
  }

  /** The reserved line both programs compare against: `>>bye<<`. */
  const QuitToken: string := ">>bye<<"

  /** `isspace` in the "C" locale: space, \t, \n, \v, \f and \r. */
  predicate IsSpace(c: char) {
    c == ' ' || c == '\t' || c == '\n' || c == '\U{0B}' || c == '\U{0C}' || c == '\r'
  }

  /** `strncmp(s, prefix, |prefix|) == 0` for a NUL-free `s`. */
  predicate StartsWith(s: string, prefix: string) {
    |prefix| <= |s| && s[..|prefix|] == prefix
  }

  function Spaces(n: nat): (r: string)
    ensures |r| == n
    ensures forall i :: 0 <= i < n ==> r[i] == ' '
  {
    seq(n, _ => ' ')
  }

  function Max(a: int, b: int): int { if a < b then b else a }

  function Min(a: int, b: int): int { if a < b then a else b }

  /** `printf("%-Ns", s)`: `s` left-justified in a field of `width` characters; never truncated. */
  function PadRight(s: string, width: nat): (r: string)
    ensures |r| == Max(|s|, width)
    ensures r[..|s|] == s
    ensures forall i :: |s| <= i < |r| ==> r[i] == ' '
  {
    if |s| < width then s + Spaces(width - |s|) else s
  }

  /** `printf("%Ns", s)`: `s` right-justified in a field of `width` characters; never truncated. */
  function PadLeft(s: string, width: nat): (r: string)
    ensures |r| == Max(|s|, width)
    ensures r[|r| - |s|..] == s
    ensures forall i :: 0 <= i < |r| - |s| ==> r[i] == ' '
  {
    if |s| < width then Spaces(width - |s|) + s else s
  }

  /** What `snprintf` keeps of `s` when at most `n` characters fit before the NUL. */
  function Truncate(s: string, n: nat): (r: string)
    ensures |r| == Min(|s|, n)
    ensures r == s[..|r|]
  {
    if |s| <= n then s else s[..n]
  }

  lemma MulStep(a: int, b: int, d: nat)
    requires a < b
    ensures a * d + d <= b * d
  {
    var c: nat := b - a - 1;
    assert c * d >= 0;
    assert b * d == (a + 1) * d + c * d;
    assert (a + 1) * d == a * d + d;
  }

  lemma MulSucc(k: int, d: int)
    ensures (k + 1) * d == k * d + d
  {
  }

  /** `n / d` is the `q` with `q·d <= n < q·d + d`. */
  lemma DivUnique(n: int, d: nat, q: int)
    requires d > 0 && q * d <= n < q * d + d
    ensures n / d == q
  {
    var q', r := n / d, n % d;
    assert n == q' * d + r && 0 <= r < d;
    if q' > q {
      MulStep(q, q', d);
      assert false;
    }
    if q' < q {
      MulStep(q', q, d);
      assert false;
    }
  }

  /** The strings of `parts` written one after another. */
  function Concat(parts: seq<string>): string {
    if parts == [] then [] else parts[0] + Concat(parts[1..])
  }

  lemma {:induction false} ConcatAppend(a: seq<string>, b: seq<string>)
    ensures Concat(a + b) == Concat(a) + Concat(b)
  {
    if a == [] {
      assert a + b == b;
    } else {
      assert (a + b)[1..] == a[1..] + b;
      ConcatAppend(a[1..], b);
    }
  }
}
