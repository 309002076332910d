/** pkg/network/network.go: the three-digit odometer on dotted strings. */
module Network {
  import opened Common

  /** FindSubnet indexes its argument without a bound check, so it may panic. */
  datatype Outcome = Panics | Text(value: string)

  // ---------------------------------------------------------------- decimal numbers (strconv)

  const MAX_UINT64: int := 0xFFFF_FFFF_FFFF_FFFF
  const MAX_INT64: int := 0x7FFF_FFFF_FFFF_FFFF
  const MIN_INT64: int := -0x8000_0000_0000_0000

  datatype Scanned = Syntax | Range | Number(n: nat)

  predicate IsDigit(c: char) { '0' <= c <= '9' }

  function DigitChar(d: nat): (c: char)
    requires d < 10
    ensures IsDigit(c) && c as int - '0' as int == d
  {
    '0' + d as char
  }

  /** strconv.ParseUint: the scan stops at the first character that is no digit or that overflows. */
  function Scan(s: string): Scanned {
    if s == "" then Number(0) else
      match Scan(s[..|s| - 1])
      case Number(n) =>
        var c := s[|s| - 1];
        if !IsDigit(c) then Syntax
        else if n * 10 + (c as int - '0' as int) > MAX_UINT64 then Range
        else Number(n * 10 + (c as int - '0' as int))
      case stopped => stopped
  }

  /** strconv.Atoi with the error dropped: 0 on a syntax error, saturated on a range error. */
  function Atoi(s: string): int {
    if s == "" then 0 else
      var negative := s[0] == '-';
      var digits := if s[0] == '-' || s[0] == '+' then s[1..] else s;
      if digits == "" then 0 else
        match Scan(digits)
        case Syntax => 0 as int
        case Range => if negative then MIN_INT64 else MAX_INT64
        case Number(n) =>
          if negative then (if n > MAX_INT64 then MIN_INT64 else -(n as int))
          else (if n > MAX_INT64 then MAX_INT64 else n as int)
  }

  function NatToString(n: nat): string {
    if n < 10 then [DigitChar(n)] else NatToString(n / 10) + [DigitChar(n % 10)]
  }

  function Itoa(n: int): string {
    if n < 0 then "-" + NatToString(-n) else NatToString(n)
  }

  lemma {:induction false} DigitsOnly(n: nat)
    ensures NatToString(n) != "" && IsDigit(NatToString(n)[0])
    ensures forall i :: 0 <= i < |NatToString(n)| ==> NatToString(n)[i] != '.'
  {
    if n >= 10 {
      DigitsOnly(n / 10);
    }
  }

  lemma {:induction false} ScanInvertsPrint(n: nat)
    requires n <= MAX_UINT64
    ensures Scan(NatToString(n)) == Number(n)
  {
    var s := NatToString(n);
    if n < 10 {
      assert s[..|s| - 1] == "";
    } else {
      ScanInvertsPrint(n / 10);
      assert s[..|s| - 1] == NatToString(n / 10);
    }
  }

  lemma AtoiInvertsItoa(n: nat)
    requires n <= MAX_INT64
    ensures Atoi(Itoa(n)) == n
  {
    ScanInvertsPrint(n);
    DigitsOnly(n);
  }

  ghost predicate DotFree(s: string) { forall i :: 0 <= i < |s| ==> s[i] != '.' }

  lemma ItoaHasNoDot(n: int)
    ensures DotFree(Itoa(n))
  {
    DigitsOnly(if n < 0 then -n else n);
  }

  // ---------------------------------------------------------------- dotted fields

  function Dotted(field: string, rest: string): string { field + "." + rest }

  /** The text before the first dot and the text after it; None without a dot. */
  function Cut(s: string): Option<(string, string)> {
    if s == "" then None
    else if s[0] == '.' then Some(("", s[1..]))
    else match Cut(s[1..])
         case None => None
         case Some((field, rest)) => Some(([s[0]] + field, rest))
  }

  /** The first n dot-terminated fields; None where the source would run off the string. */
  function Fields(s: string, n: nat): Option<seq<string>>
    decreases n
  {
    if n == 0 then Some([]) else
      match Cut(s)
      case None => None
      case Some((field, rest)) => Prepend([field], Fields(rest, n - 1))
  }

  function Prepend(front: seq<string>, r: Option<seq<string>>): Option<seq<string>> {
    match r case None => None case Some(rest) => Some(front + rest)
  }

  lemma {:induction false} CutDotted(field: string, rest: string)
    requires DotFree(field)
    ensures Cut(Dotted(field, rest)) == Some((field, rest))
  {
    var s := Dotted(field, rest);
    if field == "" {
      assert s[1..] == rest;
    } else {
      assert s[0] == field[0];
      assert s[1..] == Dotted(field[1..], rest);
      CutDotted(field[1..], rest);
      assert field == [field[0]] + field[1..];
    }
  }

  lemma {:induction false} CutNone(s: string)
    requires DotFree(s)
    ensures Cut(s) == None
  {
    if s != "" {
      CutNone(s[1..]);
    }
  }

  lemma {:induction false} CutSplits(s: string)
    ensures Cut(s).None? ==> DotFree(s)
    ensures Cut(s).Some? ==> DotFree(Cut(s).value.0) && s == Dotted(Cut(s).value.0, Cut(s).value.1)
  {
    if s != "" && s[0] != '.' {
      CutSplits(s[1..]);
      assert s == [s[0]] + s[1..];
    }
  }

  lemma PrependField(front: seq<string>, s: string, field: string, rest: string, n: nat)
    requires s == Dotted(field, rest) && DotFree(field) && n > 0
    ensures Prepend(front, Fields(s, n)) == Prepend(front + [field], Fields(rest, n - 1))
  {
    CutDotted(field, rest);
    var tail := Fields(rest, n - 1);
    assert tail.Some? ==> front + ([field] + tail.value) == (front + [field]) + tail.value;
  }

  lemma PrependNothing(r: Option<seq<string>>)
    ensures Prepend([], r) == r
  {
    assert r.Some? ==> [] + r.value == r.value;
  }

  // ---------------------------------------------------------------- FindSubnet

  function Print(a: int, b: int, c: int): string {
    Dotted(Itoa(a), Dotted(Itoa(b), Dotted(Itoa(c), "")))
  }

  /** The carry of the odometer; None when all three digits are at their end. */
  function Carry(a: int, b: int, c: int): Option<(int, int, int)> {
    if c < 255 then Some((a, b, c + 1))
    else if b < 255 then Some((a, b + 1, 0))
    else if a < 255 then Some((a + 1, 0, 0))
    else None
  }

  function PrintCarry(carry: Option<(int, int, int)>): string {
    match carry
    case None => "err"
    case Some((a, b, c)) => Print(a, b, c)
  }

  /** What FindSubnet computes. */
  function NextSubnet(s: string): Outcome {
    var f := Fields(s, 3);
    if f.Some? && |f.value| == 3 then
      Text(PrintCarry(Carry(Atoi(f.value[0]), Atoi(f.value[1]), Atoi(f.value[2]))))
    else
      Panics
  }

  lemma {:induction false} FieldCount(s: string, n: nat)
    ensures Fields(s, n).Some? ==> |Fields(s, n).value| == n
    decreases n
  {
    if n > 0 && Cut(s).Some? {
      FieldCount(Cut(s).value.1, n - 1);
    }
  }

  lemma NextOfFields(s: string, f: seq<string>)
    requires |f| == 3 && Fields(s, 3) == Prepend(f, Some([]))
    ensures NextSubnet(s) == Text(PrintCarry(Carry(Atoi(f[0]), Atoi(f[1]), Atoi(f[2]))))
  {
    assert f + [] == f;
  }

  lemma Halves(s: string, j: nat, end: nat)
    requires j <= end <= |s| && (end < |s| ==> s[end] == '.')
    ensures if end < |s| then s[j..] == Dotted(s[j..end], s[end + 1..]) else s[j..] == s[j..end]
  {
  }

  /** The inner loop of FindSubnet: the characters from position j up to the next dot, or to the end of the string. */
  method ReadField(s: string, j: nat) returns (temp: string, end: nat)
    requires j <= |s|
    ensures j <= end <= |s| && DotFree(temp)
    ensures if end < |s| then s[j..] == Dotted(temp, s[end + 1..]) else s[j..] == temp
  {
    temp, end := "", j;
    while end < |s| && s[end] != '.'
      invariant j <= end <= |s|
      invariant temp == s[j..end] && DotFree(temp)
    {
      temp := temp + [s[end]];
      end := end + 1;
    }
    Halves(s, j, end);
  }

  method FindSubnet(lastSubnet: string) returns (r: Outcome)
    ensures r == NextSubnet(lastSubnet)
  {
    var value := new int[3];
    var j := 0;
    ghost var seen: seq<string> := [];
    assert lastSubnet[0..] == lastSubnet;
    PrependNothing(Fields(lastSubnet, 3));
    for i := 0 to 3
      invariant 0 <= j <= |lastSubnet|
      invariant |seen| == i && forall m :: 0 <= m < i ==> value[m] == Atoi(seen[m])
      invariant Fields(lastSubnet, 3) == Prepend(seen, Fields(lastSubnet[j..], 3 - i))
    {
      ghost var rest := lastSubnet[j..];
      var temp;
      temp, j := ReadField(lastSubnet, j);
      if j == |lastSubnet| {
        CutNone(rest);
        return Panics;
      }
      value[i] := Atoi(temp);
      PrependField(seen, rest, temp, lastSubnet[j + 1..], 3 - i);
      seen := seen + [temp];
      j := j + 1;
    }
    NextOfFields(lastSubnet, seen);
    if value[2] >= 255 {
      if value[1] >= 255 {
        if value[0] >= 255 {
          return Text("err");
        }
        value[0] := value[0] + 1;
        value[1] := 0;
        value[2] := 0;
      } else {
        value[1] := value[1] + 1;
        value[2] := 0;
      }
    } else {
      value[2] := value[2] + 1;
    }
    r := Text(Print(value[0], value[1], value[2]));
  }

  // ---------------------------------------------------------------- FindSubnet is the successor

  const SUBNETS: nat := 0x100_0000

  /** Three octets. */
  datatype Octets = Octets(a: nat, b: nat, c: nat) {
    predicate Valid() { a <= 255 && b <= 255 && c <= 255 }

    /** The 24-bit number they stand for. */
    function Value(): nat { a * 0x1_0000 + b * 0x100 + c }

    /** Their canonical spelling: decimal, no leading zeros, a dot after each. */
    function Text(): string { Print(a, b, c) }
  }

  lemma ValueIsInjective(x: Octets, y: Octets)
    requires x.Valid() && y.Valid()
    ensures x.Value() < SUBNETS
    ensures x.Value() == y.Value() ==> x == y
  {
  }

  /** Three dot-free fields, each followed by a dot, are read back whatever follows. */
  lemma FieldsOfThree(a: string, b: string, c: string, rest: string)
    requires DotFree(a) && DotFree(b) && DotFree(c)
    ensures Fields(Dotted(a, Dotted(b, Dotted(c, rest))), 3) == Some([a, b, c])
  {
    var t1 := Dotted(c, rest);
    var t2 := Dotted(b, t1);
    var s := Dotted(a, t2);
    PrependNothing(Fields(s, 3));
    PrependField([], s, a, t2, 3);
    PrependField([a], t2, b, t1, 2);
    PrependField([a, b], t1, c, rest, 1);
    assert [] + [a] == [a] && [a] + [b] == [a, b] && [a, b] + [c] == [a, b, c] && [a, b, c] + [] == [a, b, c];
  }

  lemma DottedAppend(field: string, s: string, rest: string)
    ensures Dotted(field, s) + rest == Dotted(field, s + rest)
  {
  }

  lemma PrintAppend(a: int, b: int, c: int, rest: string)
    ensures Print(a, b, c) + rest == Dotted(Itoa(a), Dotted(Itoa(b), Dotted(Itoa(c), rest)))
  {
    DottedAppend(Itoa(a), Dotted(Itoa(b), Dotted(Itoa(c), "")), rest);
    DottedAppend(Itoa(b), Dotted(Itoa(c), ""), rest);
    DottedAppend(Itoa(c), "", rest);
    assert "" + rest == rest;
  }

  lemma FieldsOfPrint(a: nat, b: nat, c: nat, rest: string)
    requires a <= MAX_INT64 && b <= MAX_INT64 && c <= MAX_INT64
    ensures Fields(Print(a, b, c) + rest, 3) == Some([Itoa(a), Itoa(b), Itoa(c)])
    ensures Atoi(Itoa(a)) == a && Atoi(Itoa(b)) == b && Atoi(Itoa(c)) == c
  {
    ItoaHasNoDot(a); ItoaHasNoDot(b); ItoaHasNoDot(c);
    AtoiInvertsItoa(a); AtoiInvertsItoa(b); AtoiInvertsItoa(c);
    PrintAppend(a, b, c, rest);
    FieldsOfThree(Itoa(a), Itoa(b), Itoa(c), rest);
  }

  lemma NextOfPrint(a: nat, b: nat, c: nat, rest: string)
    requires a <= 255 && b <= 255 && c <= 255
    ensures NextSubnet(Print(a, b, c) + rest) == Text(PrintCarry(Carry(a, b, c)))
  {
    FieldsOfPrint(a, b, c, rest);
    var f := [Itoa(a), Itoa(b), Itoa(c)];
    assert f + [] == f;
    NextOfFields(Print(a, b, c) + rest, f);
  }

  /** FindSubnet adds one to the number its argument starts with, and says "err" exactly after the last one. */
  lemma FindSubnetIsSuccessor(x: Octets, s: string) returns (y: Octets)
    requires x.Valid() && x.Text() <= s
    ensures y.Valid()
    ensures x.Value() + 1 < SUBNETS ==> y.Value() == x.Value() + 1 && NextSubnet(s) == Text(y.Text())
    ensures x.Value() + 1 >= SUBNETS ==> x.Value() + 1 == SUBNETS && NextSubnet(s) == Text("err")
  {
    var rest := s[|x.Text()|..];
    assert s == x.Text() + rest;
    NextOfPrint(x.a, x.b, x.c, rest);
    y := match Carry(x.a, x.b, x.c)
         case Some((a, b, c)) => Octets(a, b, c)
         case None => x;
    ValueIsInjective(x, Octets(255, 255, 255));
  }

  /** Feeding the result back n times. */
  function Iterate(s: string, n: nat): Outcome
    decreases n
  {
    if n == 0 then Text(s) else
      match NextSubnet(s)
      case Panics => Panics
      case Text(t) => Iterate(t, n - 1)
  }

  lemma IterateOnce(x: Octets, s: string, n: nat) returns (y: Octets, t: string)
    requires x.Valid() && x.Text() <= s && n > 0
    ensures Iterate(s, n) == Iterate(t, n - 1) && y.Valid()
    ensures x.Value() + 1 < SUBNETS ==> y.Value() == x.Value() + 1 && t == y.Text()
    ensures x.Value() + 1 >= SUBNETS ==> x.Value() + 1 == SUBNETS && t == "err"
  {
    y := FindSubnetIsSuccessor(x, s);
    t := NextSubnet(s).value;
  }

  /** n steps add n, as far as the numbers reach; the next step yields "err", and every later one panics. */
  lemma {:induction false} IterateAdds(x: Octets, s: string, n: nat) returns (y: Octets, r: Outcome)
    requires x.Valid() && x.Text() <= s && 0 < n
    ensures r == Iterate(s, n) && y.Valid()
    ensures x.Value() + n < SUBNETS ==> y.Value() == x.Value() + n && r == Text(y.Text())
    ensures x.Value() + n == SUBNETS ==> r == Text("err")
    ensures x.Value() + n > SUBNETS ==> r == Panics
    decreases n
  {
    hide NextSubnet, Octets.Text, Octets.Value, Octets.Valid;
    var t;
    y, t := IterateOnce(x, s, n);
    if x.Value() + 1 == SUBNETS {
      IterateErr(n - 1);
      r := if n == 1 then Text("err") else Panics;
    } else if n == 1 {
      r := Text(t);
    } else {
      y, r := IterateAdds(y, t, n - 1);
    }
  }

  lemma IterateErr(n: nat)
    ensures Iterate("err", n) == if n == 0 then Text("err") else Panics
  {
    ErrPanics();
  }

  lemma ErrPanics()
    ensures NextSubnet("err") == Panics
  {
    CutNone("err");
  }

  lemma PrintIsNotErr(a: int, b: int, c: int)
    ensures Print(a, b, c) != "err"
  {
    ItoaHasNoDot(a);
    CutDotted(Itoa(a), Dotted(Itoa(b), Dotted(Itoa(c), "")));
    CutNone("err");
  }

  /** On any input at all, "err" means that all three octets have run out. */
  lemma ErrExactly(s: string)
    ensures NextSubnet(s) == Text("err") <==>
            Fields(s, 3).Some? && forall f :: f in Fields(s, 3).value ==> Atoi(f) >= 255
  {
    FieldCount(s, 3);
    if Fields(s, 3).Some? {
      var f := Fields(s, 3).value;
      assert f == [f[0], f[1], f[2]];
      match Carry(Atoi(f[0]), Atoi(f[1]), Atoi(f[2]))
      case None =>
      case Some((a, b, c)) => PrintIsNotErr(a, b, c);
    }
  }

  /** The 24-bit number a subnet string stands for. */
  function SubnetNumber(s: string): int {
    match Fields(s, 3)
    case None => -1
    case Some(f) => if |f| == 3 then Atoi(f[0]) * 0x1_0000 + Atoi(f[1]) * 0x100 + Atoi(f[2]) else -1
  }

  lemma NumberOfText(x: Octets, s: string)
    requires x.Valid() && x.Text() <= s
    ensures SubnetNumber(s) == x.Value()
  {
    var rest := s[|x.Text()|..];
    assert s == x.Text() + rest;
    FieldsOfPrint(x.a, x.b, x.c, rest);
  }

  // ---------------------------------------------------------------- GetSubnetFromIP

  /** strings.Split(s, "."). */
  function Split(s: string): (parts: seq<string>)
    ensures |parts| >= 1
    decreases |s|
  {
    match Cut(s)
    case None => [s]
    case Some((field, rest)) => CutShrinks(s); [field] + Split(rest)
  }

  lemma {:induction false} CutShrinks(s: string)
    ensures Cut(s).Some? ==> |Cut(s).value.1| < |s|
  {
    if s != "" && s[0] != '.' {
      CutShrinks(s[1..]);
    }
  }

  function GetSubnetFromIP(ip: string): Option<string> {
    var parts := Split(ip);
    if |parts| != 4 then None else Some(Dotted(parts[0], Dotted(parts[1], Dotted(parts[2], ""))))
  }

  lemma SplitFour(ip: string)
    requires |Split(ip)| == 4
    ensures var p := Split(ip);
            DotFree(p[0]) && DotFree(p[1]) && DotFree(p[2]) &&
            ip == Dotted(p[0], Dotted(p[1], Dotted(p[2], p[3])))
  {
    CutSplits(ip);
    var (a, t2) := Cut(ip).value;
    CutSplits(t2);
    var (b, t1) := Cut(t2).value;
    CutSplits(t1);
    assert Split(ip) == [a] + Split(t2) && Split(t2) == [b] + Split(t1);
    var (c, t0) := Cut(t1).value;
    assert Split(t1) == [c] + Split(t0);
  }

  /** The allocator behaves alike on an address and on the subnet cut out of it. */
  lemma SubnetOfAddressHasSameSuccessor(ip: string)
    requires GetSubnetFromIP(ip).Some?
    ensures NextSubnet(GetSubnetFromIP(ip).value) == NextSubnet(ip)
  {
    SplitFour(ip);
    var p := Split(ip);
    FieldsOfThree(p[0], p[1], p[2], p[3]);
    FieldsOfThree(p[0], p[1], p[2], "");
  }

  lemma SplitOfThree(a: string, b: string, c: string, h: string)
    requires DotFree(a) && DotFree(b) && DotFree(c) && DotFree(h)
    ensures Split(Dotted(a, Dotted(b, Dotted(c, h)))) == [a, b, c, h]
  {
    CutDotted(a, Dotted(b, Dotted(c, h)));
    CutDotted(b, Dotted(c, h));
    CutDotted(c, h);
    CutNone(h);
    assert Split(Dotted(c, h)) == [c] + [h];
    assert Split(Dotted(b, Dotted(c, h))) == [b] + ([c] + [h]);
  }

  /** Cutting the subnet out of any address inside a freshly computed subnet gives that subnet back. */
  lemma SubnetOfFreshAddress(s: string, h: string)
    requires NextSubnet(s).Text? && NextSubnet(s).value != "err"
    requires DotFree(h)
    ensures GetSubnetFromIP(NextSubnet(s).value + h) == Some(NextSubnet(s).value)
  {
    var f := Fields(s, 3).value;
    var (a, b, c) := Carry(Atoi(f[0]), Atoi(f[1]), Atoi(f[2])).value;
    ItoaHasNoDot(a); ItoaHasNoDot(b); ItoaHasNoDot(c);
    PrintAppend(a, b, c, h);
    SplitOfThree(Itoa(a), Itoa(b), Itoa(c), h);
  }
}
