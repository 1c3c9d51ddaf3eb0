/** The member list of a cluster: parsed from a comma-separated string, numbered, and printed again. */
module Cluster {

  /** A zero-terminated string, without its terminator. */
  type CString = s: string | '\0' !in s

  // ----- splitting into names -----

  predicate IsSpace(c: char) { c == ' ' || c == '\t' }

  /** Names completed by a comma, and the characters after the last comma. */
  datatype Scanned = Scanned(done: seq<string>, cur: string)

  function Scan(s: string): (r: Scanned) {
    if s == [] then Scanned([], "") else
    var r, c := Scan(s[..|s| - 1]), s[|s| - 1];
    if IsSpace(c) then r
    else if c == ',' then (if r.cur == "" then r else Scanned(r.done + [r.cur], ""))
    else r.(cur := r.cur + [c])
  }

  function Close(r: Scanned): (names: seq<string>) { if r.cur == "" then r.done else r.done + [r.cur] }

  /** The non-empty names of a list, white space removed. */
  function Names(s: string): (names: seq<string>) { Close(Scan(s)) }

  predicate IsName(s: string) {
    s != "" && forall i :: 0 <= i < |s| ==> s[i] != ',' && s[i] != '\0' && !IsSpace(s[i])
  }

  predicate AllNames(names: seq<string>) { forall i :: 0 <= i < |names| ==> IsName(names[i]) }

  lemma {:induction false} ScanIsNames(s: CString)
    ensures AllNames(Scan(s).done) && (Scan(s).cur != "" ==> IsName(Scan(s).cur))
  {
    if s != [] { ScanIsNames(s[..|s| - 1]); }
  }

  lemma NamesAreNames(s: CString)
    ensures AllNames(Names(s))
  {
    ScanIsNames(s);
  }

  /** Names as they lie in the buffer, each followed by a zero. */
  function Flat(names: seq<string>): (s: string) {
    if names == [] then "" else names[0] + ['\0'] + Flat(names[1..])
  }

  lemma {:induction false} FlatAppend(names: seq<string>, t: string)
    ensures Flat(names + [t]) == Flat(names) + t + ['\0']
  {
    if names == [] {
      assert names + [t] == [t];
      assert [t][1..] == [];
    } else {
      assert (names + [t])[1..] == names[1..] + [t];
      FlatAppend(names[1..], t);
    }
  }

  /** The buffer after scanning s, and whether it ends inside a name. */
  function Image(r: Scanned): (s: string) { Flat(r.done) + r.cur }

  lemma FlatEnds(names: seq<string>)
    requires names != []
    ensures Flat(names) != "" && Flat(names)[|Flat(names)| - 1] == '\0'
  {
    assert names == names[..|names| - 1] + [names[|names| - 1]];
    FlatAppend(names[..|names| - 1], names[|names| - 1]);
  }

  lemma OpenName(s: CString)
    ensures var b := Image(Scan(s)); (b != "" && b[|b| - 1] != '\0') <==> Scan(s).cur != ""
  {
    var r := Scan(s);
    ScanIsNames(s);
    if r.cur == "" && r.done != [] { FlatEnds(r.done); }
  }

  lemma ScanStep(s: CString, i: nat)
    requires i < |s|
    ensures var r, r' := Scan(s[..i]), Scan(s[..i + 1]);
            if IsSpace(s[i]) || (s[i] == ',' && r.cur == "") then r' == r
            else if s[i] == ',' then Image(r') == Image(r) + ['\0'] && |r'.done| == |r.done| + 1
            else Image(r') == Image(r) + [s[i]] && r'.done == r.done
  {
    assert s[..i + 1][..i] == s[..i];
    FlatAppend(Scan(s[..i]).done, Scan(s[..i]).cur);
  }

  /** White space is stripped, and commas become zeros unless the name before them is empty. */
  method Tokenize(s: CString) returns (tmp: array<char>, j: nat, numVariants: nat)
    ensures j <= tmp.Length && tmp[..j] == Flat(Names(s)) && numVariants == |Names(s)|
  {
    tmp := new char[|s| + 1](_ => '\0');
    j, numVariants := 0, 0;
    var i := 0;
    while i < |s|
      invariant i <= |s| && j <= i
      invariant tmp[..j] == Image(Scan(s[..i])) && numVariants == |Scan(s[..i]).done|
    {
      ScanStep(s, i);
      OpenName(s[..i]);
      assert j > 0 ==> tmp[j - 1] == tmp[..j][j - 1];
      if IsSpace(s[i]) {
      } else if s[i] == ',' {
        if j > 0 && tmp[j - 1] != '\0' {
          tmp[j] := '\0';
          j, numVariants := j + 1, numVariants + 1;
        }
      } else {
        tmp[j] := s[i];
        j := j + 1;
      }
      i := i + 1;
    }
    assert s[..i] == s;
    OpenName(s);
    assert j > 0 ==> tmp[j - 1] == tmp[..j][j - 1];
    if j > 0 && tmp[j - 1] != '\0' {
      FlatAppend(Scan(s).done, Scan(s).cur);
      tmp[j] := '\0';
      j, numVariants := j + 1, numVariants + 1;
    }
  }

  /** The name at a position of the buffer. */
  method NameAt(tmp: array<char>, j: nat, pos: nat, ghost names: seq<string>) returns (name: string)
    requires pos <= j <= tmp.Length && tmp[pos..j] == Flat(names) && names != [] && IsName(names[0])
    ensures name == names[0] && pos + |name| + 1 <= j && tmp[pos + |name| + 1..j] == Flat(names[1..])
  {
    ghost var b := tmp[pos..j];
    assert b == names[0] + ['\0'] + Flat(names[1..]);
    assert b[|names[0]|] == '\0';
    var n := 0;
    while tmp[pos + n] != '\0'
      invariant n <= |names[0]|
      decreases |names[0]| - n
    {
      assert tmp[pos + n] == b[n];
      n := n + 1;
    }
    assert tmp[pos + n] == b[n];
    assert n == |names[0]|;
    name := tmp[pos..pos + n];
    assert name == b[..n];
    assert tmp[pos + n + 1..j] == b[n + 1..];
  }

  // ----- what splitting means -----

  lemma ScanComma(s: string)
    ensures Scan(s + ",") == Scanned(Names(s), "")
  {
    assert (s + ",")[..|s|] == s;
  }

  lemma {:induction false} ScanAfter(s: string, t: string)
    requires Scan(s).cur == ""
    ensures Scan(s + t) == Scanned(Scan(s).done + Scan(t).done, Scan(t).cur)
  {
    if t == "" {
      assert s + t == s;
    } else {
      var k := |t| - 1;
      ScanAfter(s, t[..k]);
      assert (s + t)[..|s + t| - 1] == s + t[..k] && (s + t)[|s + t| - 1] == t[k];
      assert Scan(s).done + (Scan(t[..k]).done + [Scan(t[..k]).cur]) ==
             Scan(s).done + Scan(t[..k]).done + [Scan(t[..k]).cur];
    }
  }

  /** A list splits at every comma. */
  lemma SplitsAtComma(s: string, t: string)
    ensures Names(s + "," + t) == Names(s) + Names(t)
  {
    ScanComma(s);
    ScanAfter(s + ",", t);
    var r := Scan(t);
    assert Names(s) + (r.done + [r.cur]) == Names(s) + r.done + [r.cur];
  }

  /** The characters of a string but for blanks and tabs. */
  function Stripped(s: string): (r: string) {
    if s == "" then "" else
    Stripped(s[..|s| - 1]) + if s[|s| - 1] == ' ' || s[|s| - 1] == '\t' then "" else [s[|s| - 1]]
  }

  lemma {:induction false} ScanPlain(s: string)
    requires ',' !in s
    ensures Scan(s) == Scanned([], Stripped(s))
  {
    if s != "" { ScanPlain(s[..|s| - 1]); }
  }

  /** Between commas there is one name, the characters other than white space; none if there are no such characters. */
  lemma PlainIsOneName(s: string)
    requires ',' !in s
    ensures Names(s) == if Stripped(s) == "" then [] else [Stripped(s)]
  {
    ScanPlain(s);
  }

  // ----- printing, and parsing what was printed -----

  function Join(names: seq<string>): (s: string) {
    if names == [] then "" else if |names| == 1 then names[0] else
    Join(names[..|names| - 1]) + "," + names[|names| - 1]
  }

  /** Lists are printed with a comma, and nothing else, between them. */
  lemma {:induction false} JoinOfTwo(a: seq<string>, b: seq<string>)
    requires a != [] && b != []
    ensures Join(a + b) == Join(a) + "," + Join(b) && Join([a[0]]) == a[0]
  {
    var k := |b| - 1;
    assert (a + b)[..|a + b| - 1] == a + b[..k] && (a + b)[|a + b| - 1] == b[k];
    if k == 0 {
      assert a + b[..0] == a;
    } else {
      JoinOfTwo(a, b[..k]);
      JoinLast(b);
      assert Join(a) + "," + Join(b[..k]) + "," + b[k] == Join(a) + "," + (Join(b[..k]) + "," + b[k]);
    }
  }

  lemma JoinLast(b: seq<string>)
    requires |b| > 1
    ensures Join(b) == Join(b[..|b| - 1]) + "," + b[|b| - 1]
  {
  }

  lemma Snoc<T>(s: seq<T>, w: seq<T>)
    requires w != []
    ensures s + w == s + w[..|w| - 1] + [w[|w| - 1]]
  {
  }

  lemma ScanChar(s: string, c: char)
    requires c != ',' && !IsSpace(c)
    ensures Scan(s + [c]) == Scan(s).(cur := Scan(s).cur + [c])
  {
    assert (s + [c])[..|s|] == s;
  }

  lemma {:induction false} ScanWord(s: string, w: string)
    requires forall i :: 0 <= i < |w| ==> w[i] != ',' && !IsSpace(w[i])
    ensures Scan(s + w) == Scan(s).(cur := Scan(s).cur + w)
  {
    if w == [] {
      assert s + w == s;
    } else {
      var k := |w| - 1;
      ScanWord(s, w[..k]);
      ScanChar(s + w[..k], w[k]);
      Snoc(s, w);
      Snoc(Scan(s).cur, w);
    }
  }

  lemma {:induction false} ScanJoin(names: seq<string>)
    requires names != [] && AllNames(names)
    ensures Scan(Join(names)) == Scanned(names[..|names| - 1], names[|names| - 1])
  {
    var k := |names| - 1;
    if k == 0 {
      ScanWord("", names[0]);
      assert "" + names[0] == names[0];
    } else {
      var p := names[..k];
      ScanJoin(p);
      var s := Join(p) + ",";
      assert s[..|s| - 1] == Join(p);
      assert p == p[..k - 1] + [p[k - 1]];
      assert Scan(s) == Scanned(p, "");
      ScanWord(s, names[k]);
    }
  }

  /** The names of a printed list are the names that were printed. */
  lemma NamesOfJoin(names: seq<string>)
    requires AllNames(names)
    ensures Names(Join(names)) == names
  {
    if names != [] {
      ScanJoin(names);
      assert names == names[..|names| - 1] + [names[|names| - 1]];
    }
  }

  // ----- hart counts -----

  const UNS32: nat := 0x1_0000_0000

  predicate IsDigit(c: char) { '0' <= c <= '9' }

  predicate AllDigits(s: string) { forall i :: 0 <= i < |s| ==> IsDigit(s[i]) }

  predicate DigitsFrom(v: string, k: nat) { forall i :: k <= i < |v| ==> IsDigit(v[i]) }

  function DigitOf(c: char): (d: nat)
    requires IsDigit(c)
    ensures d < 10
  {
    c as nat - '0' as nat
  }

  function Pow10(n: nat): (p: nat) { if n == 0 then 1 else 10 * Pow10(n - 1) }

  /** The number written in decimal. */
  function Value(s: string): (v: nat)
    requires AllDigits(s)
  {
    if s == "" then 0 else DigitOf(s[0]) * Pow10(|s| - 1) + Value(s[1..])
  }

  /** A name of the form base, 'x', digits, with base and digits not empty. */
  predicate IsSplit(v: string, k: int) { 0 < k < |v| - 1 && v[k] == 'x' && DigitsFrom(v, k + 1) }

  /** The hart count, in 32 bits, and the base of a name; no count is zero. */
  ghost function HartNum(v: string): (r: (nat, string)) {
    if exists k :: IsSplit(v, k) then var k :| IsSplit(v, k); (Value(v[k + 1..]) % UNS32, v[..k]) else (0, "")
  }

  lemma Distribute(d: nat, q: nat, r: nat)
    ensures d * (q * UNS32 + r) == (d * q) * UNS32 + d * r
  {
  }

  lemma ModPlus(x: nat, k: nat)
    ensures (x + k * UNS32) % UNS32 == x % UNS32
  {
  }

  /** Wrapping an addend and a factor first does not change the wrapped result. */
  lemma ModAdd(a: nat, d: nat, p: nat)
    ensures (a % UNS32 + d * (p % UNS32)) % UNS32 == (a + d * p) % UNS32
  {
    var e, f, q, r := a / UNS32, a % UNS32, p / UNS32, p % UNS32;
    Distribute(d, q, r);
    var k := d * q;
    assert a + d * p == f + d * r + (e + k) * UNS32;
    ModPlus(f + d * r, e + k);
  }

  lemma ModTen(p: nat)
    ensures p % UNS32 * 10 % UNS32 == 10 * p % UNS32
  {
  }

  /** The scan has reached index: the digits above it have been accumulated. */
  ghost predicate Accumulated(v: string, index: int, hartNum: nat, scale: nat) {
    -1 <= index < |v| && DigitsFrom(v, index + 1) &&
    hartNum == Value(v[index + 1..]) % UNS32 && scale == Pow10(|v| - 1 - index) % UNS32
  }

  lemma DigitStep(v: string, index: nat, hartNum: nat, scale: nat)
    requires Accumulated(v, index, hartNum, scale) && IsDigit(v[index])
    ensures Accumulated(v, index - 1, (hartNum + DigitOf(v[index]) * scale) % UNS32, scale * 10 % UNS32)
  {
    assert v[index..][1..] == v[index + 1..];
    ModAdd(Value(v[index + 1..]), DigitOf(v[index]), Pow10(|v| - 1 - index));
    ModTen(Pow10(|v| - 1 - index));
  }

  lemma ScanEnds(v: string, index: nat, hartNum: nat, scale: nat)
    requires Accumulated(v, index, hartNum, scale) && !IsDigit(v[index]) && index > 0
    ensures HartNum(v) == if v[index] == 'x' && index < |v| - 1 then (hartNum, v[..index]) else (0, "")
  {
    NoLaterSplit(v, index);
    if v[index] == 'x' && index < |v| - 1 { assert IsSplit(v, index); }
  }

  lemma NothingFound(v: string, index: int, hartNum: nat, scale: nat)
    requires Accumulated(v, index, hartNum, scale) && index <= 0
    ensures HartNum(v) == (0, "")
  {
    assert forall k :: IsSplit(v, k) ==> !IsDigit(v[k]);
  }

  /** Digits are accumulated from the right, with 32-bit wrap-around; the first character is never examined. */
  method ParseHartNum(v: string) returns (n: nat, base: string)
    ensures (n, base) == HartNum(v)
  {
    var index: int := |v| - 1;
    var hartNum: nat, scale: nat, hasNum := 0, 1, false;
    n, base := 0, "";
    while index > 0
      invariant Accumulated(v, index, hartNum, scale) && (hasNum <==> index < |v| - 1)
      decreases index
    {
      var ch := v[index];
      if IsDigit(ch) {
        DigitStep(v, index, hartNum, scale);
        hasNum := true;
        hartNum := (hartNum + DigitOf(ch) * scale) % UNS32;
        scale := scale * 10 % UNS32;
        index := index - 1;
      } else {
        ScanEnds(v, index, hartNum, scale);
        if ch == 'x' && hasNum {
          base := v[..index];
          n := hartNum;
        }
        return;
      }
    }
    NothingFound(v, index, hartNum, scale);
  }

  lemma NoLaterSplit(v: string, index: nat)
    requires index < |v| && !IsDigit(v[index]) && DigitsFrom(v, index + 1)
    ensures forall k :: IsSplit(v, k) ==> k == index
  {
  }

  function Digit(d: nat): (c: char)
    requires d < 10
    ensures IsDigit(c) && DigitOf(c) == d
  {
    '0' + d as char
  }

  function Decimal(n: nat): (s: string)
    ensures s != "" && AllDigits(s)
  {
    if n < 10 then [Digit(n)] else Decimal(n / 10) + [Digit(n % 10)]
  }

  lemma TimesTen(d: nat, p: nat)
    ensures d * (10 * p) == 10 * (d * p)
  {
  }

  lemma {:induction false} ValueAppend(s: string, c: char)
    requires AllDigits(s) && IsDigit(c)
    ensures AllDigits(s + [c]) && Value(s + [c]) == 10 * Value(s) + DigitOf(c)
  {
    if s != "" {
      ValueAppend(s[1..], c);
      assert (s + [c])[1..] == s[1..] + [c];
      TimesTen(DigitOf(s[0]), Pow10(|s| - 1));
    }
  }

  lemma {:induction false} ValueDecimal(n: nat)
    ensures Value(Decimal(n)) == n
  {
    if n >= 10 {
      ValueDecimal(n / 10);
      ValueAppend(Decimal(n / 10), Digit(n % 10));
    }
  }

  lemma HartNumAt(v: string, k: nat)
    requires IsSplit(v, k)
    ensures HartNum(v) == (Value(v[k + 1..]) % UNS32, v[..k])
  {
    NoLaterSplit(v, k);
  }

  lemma SplitParts(base: string, ds: string)
    requires base != "" && ds != "" && AllDigits(ds)
    ensures var v, k := base + "x" + ds, |base|;
            |v| == k + 1 + |ds| && v[k + 1..] == ds && v[..k] == base && IsSplit(v, k)
  {
    var v, k := base + "x" + ds, |base|;
    forall i | k + 1 <= i < |v| ensures IsDigit(v[i]) { assert v[i] == ds[i - k - 1]; }
  }

  lemma HartNumOf(base: string, ds: string)
    requires base != "" && ds != "" && AllDigits(ds)
    ensures HartNum(base + "x" + ds) == (Value(ds) % UNS32, base)
  {
    SplitParts(base, ds);
    HartNumAt(base + "x" + ds, |base|);
  }

  /** Reading the hart count inverts writing it, for every count of 32 bits and every base. */
  lemma HartNumInverts(base: string, n: nat)
    requires base != "" && n < UNS32
    ensures HartNum(base + "x" + Decimal(n)) == (n, base)
  {
    HartNumOf(base, Decimal(n));
    ValueDecimal(n);
  }

  // ----- members -----

  ghost predicate Defined(known: set<string>, v: string) {
    v in known || (HartNum(v).0 != 0 && HartNum(v).1 in known)
  }

  /** A variant and its hart count override, zero for none: a known name is never taken apart. */
  ghost function MemberOf(known: set<string>, v: string): (m: (string, nat))
    requires Defined(known, v)
  {
    if v in known then (v, 0) else (HartNum(v).1, HartNum(v).0)
  }

  /** A known name is a plain variant; otherwise a known base with a count is that variant with an override. */
  lemma MemberRules(known: set<string>, base: string, n: nat)
    requires base != "" && n < UNS32
    ensures var v := base + "x" + Decimal(n);
            (v in known ==> Defined(known, v) && MemberOf(known, v) == (v, 0)) &&
            (v !in known ==> (Defined(known, v) <==> n > 0 && base in known)) &&
            (v !in known && n > 0 && base in known ==> MemberOf(known, v) == (base, n))
  {
    HartNumInverts(base, n);
  }

  function Count(members: seq<string>, x: string): (n: nat) {
    if members == [] then 0 else Count(members[..|members| - 1], x) + if members[|members| - 1] == x then 1 else 0
  }

  /** Position among the members of the same name, from one; zero where the name occurs once. */
  function UniqueIndex(members: seq<string>, i: nat): (u: nat)
    requires i < |members|
  {
    if Count(members, members[i]) > 1 then Count(members[..i], members[i]) + 1 else 0
  }

  lemma {:induction false} CountGrows(members: seq<string>, i: nat, j: nat)
    requires i < j <= |members|
    ensures Count(members[..i], members[i]) < Count(members[..j], members[i])
  {
    assert members[..j][..j - 1] == members[..j - 1];
    if i < j - 1 { CountGrows(members, i, j - 1); }
  }

  /** No two members have both the same name and the same index. */
  lemma IndicesAreUnique(members: seq<string>, i: nat, j: nat)
    requires i < j < |members|
    ensures members[i] != members[j] || UniqueIndex(members, i) < UniqueIndex(members, j)
  {
    if members[i] == members[j] {
      CountGrows(members, i, j);
      CountGrows(members, j, |members|);
      assert members[..|members|] == members;
    }
  }

  lemma {:induction false} CountUpTo(members: seq<string>, x: string, j: nat) returns (i: nat)
    requires j < Count(members, x)
    ensures i < |members| && members[i] == x && Count(members[..i], x) == j
  {
    var k := |members| - 1;
    if j < Count(members[..k], x) {
      i := CountUpTo(members[..k], x, j);
      assert members[..k][..i] == members[..i];
    } else {
      i := k;
    }
  }

  /** Indices of a name that occurs n > 1 times are from one to n; that of a name that occurs once is zero. */
  lemma IndexRange(members: seq<string>, i: nat)
    requires i < |members|
    ensures var n := Count(members, members[i]);
            n >= 1 && if n == 1 then UniqueIndex(members, i) == 0 else 1 <= UniqueIndex(members, i) <= n
  {
    CountGrows(members, i, |members|);
    assert members[..|members|] == members;
  }

  /** Every index from one to n belongs to a member of that name. */
  lemma IndexTaken(members: seq<string>, x: string, j: nat) returns (i: nat)
    requires Count(members, x) > 1 && 1 <= j <= Count(members, x)
    ensures i < |members| && members[i] == x && UniqueIndex(members, i) == j
  {
    i := CountUpTo(members, x, j - 1);
  }

  /** A plain variant, or a variant and an override. */
  method Resolve(known: set<string>, variant: string) returns (ok: bool, member: string, n: nat)
    ensures ok <==> Defined(known, variant)
    ensures ok ==> (member, n) == MemberOf(known, variant)
  {
    if variant in known { return true, variant, 0; }
    n, member := ParseHartNum(variant);
    ok := n != 0 && member in known;
  }

  lemma BaseIsName(known: set<string>, v: string)
    requires IsName(v) && Defined(known, v)
    ensures IsName(MemberOf(known, v).0) && MemberOf(known, v).0 in known
  {
  }

  /**
   * The members of any list that parses, printed and parsed again, are the same members, and
   * so have the same indices; only the hart count overrides are gone.
   */
  lemma PrintedMembersParse(known: set<string>, s: CString, members: seq<string>, numHarts: seq<nat>,
                            again: seq<string>, numHarts': seq<nat>)
    requires Resolved(known, Names(s), members, numHarts)
    ensures Names(Join(members)) == members && (forall i :: 0 <= i < |members| ==> Defined(known, members[i]))
    ensures Resolved(known, Names(Join(members)), again, numHarts') <==>
            again == members && |numHarts'| == |members| && forall i :: 0 <= i < |members| ==> numHarts'[i] == 0
  {
    NamesAreNames(s);
    forall i | 0 <= i < |members| ensures IsName(members[i]) && members[i] in known { BaseIsName(known, Names(s)[i]); }
    NamesOfJoin(members);
  }

  datatype Outcome = Ok | Empty | Undefined(name: string)

  ghost predicate IsFirstUndefined(known: set<string>, names: seq<string>, i: nat) {
    i < |names| && !Defined(known, names[i]) && forall k :: 0 <= k < i ==> Defined(known, names[k])
  }

  ghost predicate FirstUndefined(known: set<string>, names: seq<string>, name: string) {
    exists i: nat :: IsFirstUndefined(known, names, i) && names[i] == name
  }

  /** The variants in the buffer, one after the other, up to an undefined one. */
  method ReadMembers(known: set<string>, tmp: array<char>, j: nat, numVariants: nat, ghost names: seq<string>)
    returns (o: Outcome, members: seq<string>, numHarts: seq<nat>)
    requires j <= tmp.Length && tmp[..j] == Flat(names) && numVariants == |names| && AllNames(names)
    ensures o.Ok? ==> Resolved(known, names, members, numHarts)
    ensures !o.Empty? && (o.Undefined? ==> FirstUndefined(known, names, o.name))
  {
    members, numHarts := [], [];
    var pos: nat := 0;
    assert names[0..] == names && tmp[0..j] == tmp[..j];
    for i := 0 to numVariants
      invariant Resolved(known, names[..i], members, numHarts)
      invariant pos <= j && tmp[pos..j] == Flat(names[i..])
    {
      assert names[i..][1..] == names[i + 1..];
      var variant := NameAt(tmp, j, pos, names[i..]);
      pos := pos + |variant| + 1;
      var ok, member, n := Resolve(known, variant);
      if !ok {
        assert IsFirstUndefined(known, names, i);
        return Undefined(variant), members, numHarts;
      }
      ResolvedNext(known, names, i, members, numHarts, member, n);
      members, numHarts := members + [member], numHarts + [n];
    }
    assert names[..numVariants] == names;
    o := Ok;
  }

  ghost predicate Resolved(known: set<string>, names: seq<string>, members: seq<string>, numHarts: seq<nat>) {
    |members| == |numHarts| == |names| &&
    forall i :: 0 <= i < |names| ==> Defined(known, names[i]) && (members[i], numHarts[i]) == MemberOf(known, names[i])
  }

  lemma ResolvedNext(known: set<string>, names: seq<string>, i: nat, members: seq<string>, numHarts: seq<nat>,
      member: string, n: nat)
    requires i < |names| && Resolved(known, names[..i], members, numHarts)
    requires Defined(known, names[i]) && (member, n) == MemberOf(known, names[i])
    ensures Resolved(known, names[..i + 1], members + [member], numHarts + [n])
  {
  }

  class ClusterConfig {
    var members: seq<string>
    var memberNumHarts: seq<nat>
    var uniqueIndices: seq<nat>
    var numHarts: nat

    /** The members that a list of variants names, with their overrides and indices. */
    ghost predicate Holds(known: set<string>, names: seq<string>)
      reads this
    {
      Resolved(known, names, members, memberNumHarts) && |uniqueIndices| == |names| == numHarts &&
      forall i :: 0 <= i < |members| ==> uniqueIndices[i] == UniqueIndex(members, i)
    }

    /** An empty list and an undefined variant are fatal. */
    method NewClusterVariants(known: set<string>, s: CString) returns (o: Outcome)
      modifies this
      ensures o.Ok? ==> Names(s) != [] && Holds(known, Names(s))
      ensures o.Empty? <==> Names(s) == []
      ensures o.Undefined? ==> FirstUndefined(known, Names(s), o.name)
    {
      var tmp, j, numVariants := Tokenize(s);
      if numVariants == 0 { return Empty; }
      NamesAreNames(s);
      o, members, memberNumHarts := ReadMembers(known, tmp, j, numVariants, Names(s));
      AssignIndices();
      numHarts := numVariants;
    }

    method AssignIndices()
      modifies this`uniqueIndices
      ensures |uniqueIndices| == |members| &&
              forall i :: 0 <= i < |members| ==> uniqueIndices[i] == UniqueIndex(members, i)
    {
      uniqueIndices := [];
      for i := 0 to |members|
        invariant |uniqueIndices| == i
        invariant forall k :: 0 <= k < i ==> uniqueIndices[k] == UniqueIndex(members, k)
      {
        var index, matches := 0, 0;
        for j := 0 to |members|
          invariant matches == Count(members[..j], members[i])
          invariant j > i ==> index == Count(members[..i], members[i])
        {
          assert members[..j + 1][..j] == members[..j];
          if members[i] == members[j] {
            if i == j { index := matches; }
            matches := matches + 1;
          }
        }
        assert members[..|members|] == members;
        uniqueIndices := uniqueIndices + [if matches > 1 then index + 1 else 0];
      }
    }

    /** At most numHarts members, or all of them where that is zero. */
    method NumMembers() returns (n: nat)
      ensures n == if numHarts == 0 || numHarts > |members| then |members| else numHarts
    {
      n := 0;
      while (numHarts == 0 || n < numHarts) && n < |members|
        invariant n <= |members| && (numHarts != 0 ==> n <= numHarts)
      {
        n := n + 1;
      }
    }

    /** The list as a string, none if empty; the room set aside is exactly that of the string and its terminator. */
    method VariantString() returns (s: string, room: nat)
      ensures var n := if numHarts == 0 || numHarts > |members| then |members| else numHarts;
              s == Join(members[..n]) && room == if n == 0 then 0 else |s| + 1
    {
      var n := NumMembers();
      room, s := 0, "";
      if n > 0 {
        for i := 0 to n
          invariant room == if i == 0 then 0 else |Join(members[..i])| + 1
        {
          assert members[..i + 1][..i] == members[..i];
          room := room + |members[i]| + 1;
        }
        for i := 0 to n
          invariant s == Join(members[..i])
        {
          assert members[..i + 1][..i] == members[..i];
          if i > 0 { s := s + ","; }
          s := s + members[i];
        }
      }
    }
  }
}
