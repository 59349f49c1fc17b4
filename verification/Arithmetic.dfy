/** Facts about multiples and remainders that the solver needs to be told. */
module Arithmetic {

  lemma SmallRemainder(n: nat, k: nat)
    requires n < k
    ensures n % k == n
  {
  }

  lemma MultipleBound(k: int, d: int)
    requires k > 0
    ensures d >= 1 ==> k * d >= k
    ensures d <= -1 ==> k * d <= -k
  {
  }

  lemma RemainderOfRest(n: nat, k: nat)
    requires 0 < k <= n
    ensures (n - k) % k == n % k
  {
    var q, r, q', r' := n / k, n % k, (n - k) / k, (n - k) % k;
    assert n == k * q + r && n - k == k * q' + r';
    var d := q - 1 - q';
    assert k * d == k * q - k - k * q' == r' - r;
    MultipleBound(k, d);
  }
}
