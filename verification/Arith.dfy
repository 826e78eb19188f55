/** Facts about products and remainders that the solver does not find by itself. */
module Arith {

  lemma Compare(a: int, b: int, c: nat)
    ensures a <= b ==> a * c <= b * c
    ensures a > b ==> a * c >= b * c + c
  {
    if a <= b {
      Distribute(a, b - a, c);
      NotNegative(b - a, c);
    } else {
      Distribute(b + 1, a - b - 1, c);
      Distribute(b, 1, c);
      NotNegative(a - b - 1, c);
    }
  }

  lemma NotNegative(a: nat, c: nat)
    ensures a * c >= 0
  {
  }

  lemma Distribute(a: int, b: int, c: int)
    ensures (a + b) * c == a * c + b * c
  {
  }

  /** Division with remainder is unique. */
  lemma Quotient(x: int, b: int, q: int, r: int)
    requires b > 0 && x == q * b + r && 0 <= r < b
    ensures x / b == q && x % b == r
  {
    var p, s := x / b, x % b;
    assert x == p * b + s;
    Compare(p, q, b);
    Compare(q, p, b);
  }

  lemma MultipleOf(a: int, b: int)
    requires b > 0
    ensures (a * b) % b == 0 && a * b / b == a
  {
    Quotient(a * b, b, a, 0);
  }

  /** Numbers less than `b` apart have different remainders. */
  lemma SameRemainder(x: nat, y: nat, b: nat)
    requires b > 0 && x <= y < x + b
    ensures x % b == y % b <==> x == y
  {
    var p, q := x / b, y / b;
    assert x == p * b + x % b && y == q * b + y % b;
    Compare(q, p, b);
    Compare(p + 1, q, b);
    Distribute(p, 1, b);
  }

  lemma NextRemainder(x: nat, b: nat)
    requires b > 0
    ensures (x + 1) % b == if x % b == b - 1 then 0 else x % b + 1
  {
    var q, r := x / b, x % b;
    assert x == q * b + r;
    if r == b - 1 {
      Distribute(q, 1, b);
      Quotient(x + 1, b, q + 1, 0);
    } else {
      Quotient(x + 1, b, q, r + 1);
    }
  }

  lemma RemainderAdds(a: nat, i: nat, b: nat)
    requires b > 0
    ensures (a % b + i) % b == (a + i) % b
  {
    var q, r := a / b, a % b + i;
    assert a == q * b + a % b && r == (r / b) * b + r % b;
    Distribute(q, r / b, b);
    Quotient(a + i, b, q + r / b, r % b);
  }
}
