// Integers of the shell: decimal text (bin/csh/set.c: putn, getn) and C operators.
module Numbers {
  import opened Shared

  predicate IsDigit(c: char) {
    '0' <= c <= '9'
  }

  function Digit(n: nat): (c: char)
    requires n < 10
    ensures IsDigit(c)
  {
    '0' + n as char
  }

  function PutNat(n: nat): string {
    if n > 9 then PutNat(n / 10) + [Digit(n % 10)] else [Digit(n)]
  }

  function PutN(n: int): string {
    if n < 0 then "-" + PutNat(-n) else PutNat(n)
  }

  predicate AllDigits(s: string) {
    forall i :: 0 <= i < |s| ==> IsDigit(s[i])
  }

  // The value of a string of digits.
  function Decimal(s: string): nat
    requires AllDigits(s)
  {
    if s == "" then 0
    else
      assert IsDigit(s[|s| - 1]);
      10 * Decimal(s[..|s| - 1]) + (s[|s| - 1] as int - '0' as int)
  }

  // None: badly formed number.
  function GetN(cp: string): Option<int> {
    var s := if First(cp) == '+' && |cp| > 1 then cp[1..] else cp;
    if First(s) == '-' then
      if |s| > 1 && AllDigits(s[1..]) then (var n: int := Decimal(s[1..]); Some(-n)) else None
    else
      if AllDigits(s) then Some(Decimal(s)) else None
  }

  lemma {:induction false} PutNatRoundTrip(n: nat)
    ensures PutNat(n) != "" && AllDigits(PutNat(n)) && Decimal(PutNat(n)) == n
  {
    if n > 9 {
      PutNatRoundTrip(n / 10);
      var s := PutNat(n);
      assert s[..|s| - 1] == PutNat(n / 10);
    } else {
      assert [Digit(n)][..0] == "";
    }
  }

  // What putn prints, getn reads back.
  lemma PutNRoundTrip(n: int)
    ensures GetN(PutN(n)) == Some(n) && PutN(n) != ""
    ensures First(PutN(n)) == '-' || IsDigit(First(PutN(n)))
  {
    PutNatRoundTrip(if n < 0 then -n else n);
    if n < 0 { assert PutN(n)[1..] == PutNat(-n); }
  }

  // ----- the texts that are numbers -----

  function Zeros(k: nat): string {
    if k == 0 then "" else Zeros(k - 1) + "0"
  }

  // Digits are zeros and a printed number.
  lemma {:induction false} DigitsPrint(ds: string) returns (k: nat)
    requires ds != "" && AllDigits(ds)
    ensures ds == Zeros(k) + PutNat(Decimal(ds))
  {
    var front, c := ds[..|ds| - 1], ds[|ds| - 1];
    assert ds == front + [c] && IsDigit(c);
    var d: nat := c as int - '0' as int;
    assert Digit(d) == c;
    if front == "" {
      k := 0;
    } else {
      k := DigitsPrint(front);
      if Decimal(front) == 0 {
        assert Zeros(k) + PutNat(0) == Zeros(k + 1);
        k := k + 1;
      } else {
        assert (Zeros(k) + PutNat(Decimal(front))) + [c] == Zeros(k) + (PutNat(Decimal(front)) + [c]);
      }
    }
  }

  lemma {:induction false} ZerosAdd(k: nat, s: string)
    requires s != "" && AllDigits(s)
    ensures AllDigits(Zeros(k) + s) && Decimal(Zeros(k) + s) == Decimal(s)
  {
    ZerosAreDigits(k);
    ZerosInFront(k, s);
  }

  lemma {:induction false} ZerosAreDigits(k: nat)
    ensures AllDigits(Zeros(k)) && Decimal(Zeros(k)) == 0
  {
    if k > 0 {
      ZerosAreDigits(k - 1);
      assert Zeros(k)[..|Zeros(k)| - 1] == Zeros(k - 1);
    }
  }

  lemma {:induction false} ZerosInFront(k: nat, s: string)
    requires AllDigits(s) && AllDigits(Zeros(k))
    ensures AllDigits(Zeros(k) + s) && Decimal(Zeros(k) + s) == Decimal(s)
    decreases |s|
  {
    var z := Zeros(k);
    if s == "" {
      ZerosAreDigits(k);
      assert z + s == z;
    } else {
      ZerosInFront(k, s[..|s| - 1]);
      assert (z + s)[..|z + s| - 1] == z + s[..|s| - 1];
    }
  }

  // A number as it is printed behind zeros, behind a - for a negative one, and behind a +
  // that may stand in front of it all.
  ghost predicate Spells(cp: string, plus: bool, minus: bool, k: nat, m: nat) {
    cp == (if plus then "+" else "") + ((if minus then "-" else "") + (Zeros(k) + PutNat(m)))
  }

  function Signed(minus: bool, m: nat): int {
    if minus then -(m as int) else m
  }

  // That is what getn reads, and nothing at all, which is 0.
  lemma NumberText(cp: string, n: int)
    ensures GetN(cp) == Some(n) <==>
            (cp == "" && n == 0)
            || exists plus, minus, k: nat, m: nat :: Spells(cp, plus, minus, k, m) && n == Signed(minus, m)
  {
    if cp != "" && GetN(cp) == Some(n) {
      var plus, minus, k, m := ReadIsSpelled(cp, n);
    }
    if plus, minus, k: nat, m: nat :| Spells(cp, plus, minus, k, m) && n == Signed(minus, m) {
      SpelledIsRead(cp, plus, minus, k, m);
    }
  }

  lemma ReadIsSpelled(cp: string, n: int) returns (plus: bool, minus: bool, k: nat, m: nat)
    requires cp != "" && GetN(cp) == Some(n)
    ensures Spells(cp, plus, minus, k, m) && n == Signed(minus, m) && (plus <==> cp[0] == '+')
  {
    plus := cp[0] == '+';
    var s := if plus then cp[1..] else cp;
    assert cp == (if plus then "+" else "") + s;
    minus := s[0] == '-';
    var ds := if minus then s[1..] else s;
    assert s == (if minus then "-" else "") + ds;
    k := DigitsPrint(ds);
    m := Decimal(ds);
  }

  lemma SpelledIsRead(cp: string, plus: bool, minus: bool, k: nat, m: nat)
    requires Spells(cp, plus, minus, k, m)
    ensures GetN(cp) == Some(Signed(minus, m))
  {
    var ds := Zeros(k) + PutNat(m);
    PutNatRoundTrip(m);
    ZerosAdd(k, PutNat(m));
    SignsAreRead(cp, plus, minus, ds);
  }

  lemma SignsAreRead(cp: string, plus: bool, minus: bool, ds: string)
    requires ds != "" && AllDigits(ds) && cp == (if plus then "+" else "") + ((if minus then "-" else "") + ds)
    ensures GetN(cp) == Some(Signed(minus, Decimal(ds)))
  {
    assert IsDigit(ds[0]);
    var s := (if minus then "-" else "") + ds;
    assert minus ==> s[1..] == ds;
    assert !minus ==> s == ds;
    assert plus ==> cp[1..] == s;
    assert !plus ==> cp == s;
  }

  // Division rounds toward zero, the remainder takes the sign of the dividend.
  function TruncDiv(a: int, b: int): int
    requires b != 0
  {
    if a >= 0 then a / b else -(-a / b)
  }

  function TruncMod(a: int, b: int): int
    requires b != 0
  {
    a - b * TruncDiv(a, b)
  }

  datatype BitOp = OrBits | XorBits | AndBits

  function OnBits(op: BitOp, a: bool, b: bool): bool {
    match op
    case OrBits => a || b
    case XorBits => a != b
    case AndBits => a && b
  }

  // A bitwise operator on two's complement integers of any width.
  function Bitwise(op: BitOp, a: int, b: int): int
    decreases Abs(a) + Abs(b)
  {
    if (a == 0 || a == -1) && (b == 0 || b == -1) then
      if OnBits(op, a == -1, b == -1) then -1 else 0
    else
      2 * Bitwise(op, a / 2, b / 2) + (if OnBits(op, a % 2 == 1, b % 2 == 1) then 1 else 0)
  }

  function Abs(a: int): nat {
    if a < 0 then -a else a
  }

  // ~
  function Complement(a: int): int {
    -a - 1
  }
}
