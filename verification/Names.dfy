/** File and directory names carry their order as zero-padded decimal numbers; sorting names sorts numbers. */
module Names {
  import opened Bytes

  const ZERO: byte := 48

  function Pow10(w: nat): (p: nat)
    ensures p >= 1
  {
    if w == 0 then 1 else 10 * Pow10(w - 1)
  }

  /** The decimal digits of a number, as `%d` prints them. */
  function Decimal(n: nat): bytes
  {
    if n < 10 then [ZERO + n as byte] else Decimal(n / 10) + [ZERO + (n % 10) as byte]
  }

  /** The number printed with `%0<w>d`: padded with zeros to at least `w` digits. */
  function Padded(w: nat, n: nat): bytes
  {
    var d := Decimal(n);
    (if |d| < w then seq(w - |d|, _ => ZERO) else []) + d
  }

  /** Exactly `w` digits, most significant first. */
  function Fixed(w: nat, n: nat): (s: bytes)
    ensures |s| == w
  {
    if w == 0 then [] else Fixed(w - 1, n / 10) + [ZERO + (n % 10) as byte]
  }

  lemma {:induction false} DecimalLength(w: nat, n: nat)
    requires w >= 1 && n < Pow10(w)
    ensures |Decimal(n)| <= w
  {
    if n >= 10 {
      DecimalLength(w - 1, n / 10);
    }
  }

  lemma {:induction false} FixedZero(w: nat)
    ensures Fixed(w, 0) == seq(w, _ => ZERO)
  {
    if w > 0 {
      FixedZero(w - 1);
    }
  }

  lemma {:induction false} PaddedIsFixed(w: nat, n: nat)
    requires w >= 1 && n < Pow10(w)
    ensures Padded(w, n) == Fixed(w, n)
  {
    DecimalLength(w, n);
    if n < 10 {
      FixedZero(w - 1);
      assert n / 10 == 0;
      assert Padded(w, n) == seq(w - 1, _ => ZERO) + [ZERO + n as byte];
    } else {
      PaddedIsFixed(w - 1, n / 10);
      var d := Decimal(n / 10);
      var z := if |Decimal(n)| < w then seq(w - |Decimal(n)|, _ => ZERO) else [];
      assert Padded(w, n) == z + (d + [ZERO + (n % 10) as byte]) == (z + d) + [ZERO + (n % 10) as byte];
    }
  }

  lemma {:induction false} LessSnoc(a: bytes, x: byte, b: bytes, y: byte)
    requires |a| == |b|
    ensures Less(a + [x], b + [y]) <==> Less(a, b) || (a == b && x < y)
  {
    if a != [] {
      assert (a + [x])[1..] == a[1..] + [x] && (b + [y])[1..] == b[1..] + [y];
      LessSnoc(a[1..], x, b[1..], y);
      assert a == [a[0]] + a[1..] && b == [b[0]] + b[1..];
      LessTrichotomy(a[1..], b[1..]);
    }
  }

  lemma {:induction false} LessPrefix(p: bytes, a: bytes, b: bytes)
    ensures Less(p + a, p + b) <==> Less(a, b)
  {
    if p == [] {
      assert p + a == a && p + b == b;
    } else {
      assert (p + a)[1..] == p[1..] + a && (p + b)[1..] == p[1..] + b;
      LessPrefix(p[1..], a, b);
    }
  }

  lemma {:induction false} LessSuffix(a: bytes, b: bytes, s: bytes)
    requires |a| == |b|
    ensures Less(a + s, b + s) <==> Less(a, b)
  {
    if a == [] {
      LessTrichotomy(s, s);
      assert a + s == s && b + s == s;
    } else {
      assert (a + s)[1..] == a[1..] + s && (b + s)[1..] == b[1..] + s;
      LessSuffix(a[1..], b[1..], s);
    }
  }

  lemma {:induction false} FixedOrder(w: nat, m: nat, n: nat)
    requires m < Pow10(w) && n < Pow10(w)
    ensures Less(Fixed(w, m), Fixed(w, n)) <==> m < n
    ensures Fixed(w, m) == Fixed(w, n) <==> m == n
  {
    if w > 0 {
      FixedOrder(w - 1, m / 10, n / 10);
      LessSnoc(Fixed(w - 1, m / 10), ZERO + (m % 10) as byte, Fixed(w - 1, n / 10), ZERO + (n % 10) as byte);
      var a, b := Fixed(w, m), Fixed(w, n);
      assert a[..w - 1] == Fixed(w - 1, m / 10) && a[w - 1] == ZERO + (m % 10) as byte;
      assert b[..w - 1] == Fixed(w - 1, n / 10) && b[w - 1] == ZERO + (n % 10) as byte;
    }
  }

  /**
   Names with a common directory and prefix, a padded number and a common suffix sort as their numbers, below the width.
   */
  lemma {:induction false} NameOrder(prefix: bytes, w: nat, m: nat, n: nat, suffix: bytes)
    requires w >= 1 && m < Pow10(w) && n < Pow10(w)
    ensures Less(prefix + (Padded(w, m) + suffix), prefix + (Padded(w, n) + suffix)) <==> m < n
  {
    PaddedIsFixed(w, m);
    PaddedIsFixed(w, n);
    LessPrefix(prefix, Padded(w, m) + suffix, Padded(w, n) + suffix);
    LessSuffix(Padded(w, m), Padded(w, n), suffix);
    FixedOrder(w, m, n);
  }

  /** The limit is real: the first number with one more digit sorts before the last padded one. */
  lemma {:induction false} NameOrderEndsAtWidth(w: nat)
    requires w >= 1
    ensures Less(Padded(w, Pow10(w)), Padded(w, Pow10(w) - 1))
  {
    PaddedIsFixed(w, Pow10(w) - 1);
    PowerDigits(w);
    NineFirst(w);
  }

  lemma {:induction false} PowerDigits(w: nat)
    ensures |Decimal(Pow10(w))| == w + 1 && Decimal(Pow10(w))[0] == ZERO + 1
  {
    if w > 0 {
      PowerDigits(w - 1);
    }
  }

  lemma {:induction false} NineFirst(w: nat)
    requires w >= 1
    ensures Fixed(w, Pow10(w) - 1)[0] == ZERO + 9
  {
    if w > 1 {
      assert (Pow10(w) - 1) / 10 == Pow10(w - 1) - 1;
      NineFirst(w - 1);
    }
  }

  /** `strconv.ParseUint` of decimal digits. */
  function Parse(s: bytes): nat
    requires forall i :: 0 <= i < |s| ==> ZERO <= s[i] <= ZERO + 9
  {
    if s == [] then 0 else 10 * Parse(s[..|s| - 1]) + (s[|s| - 1] - ZERO) as nat
  }

  /** Reading a name back gives its number. */
  lemma {:induction false} ParseFixed(w: nat, n: nat)
    requires n < Pow10(w)
    ensures forall i :: 0 <= i < w ==> ZERO <= Fixed(w, n)[i] <= ZERO + 9
    ensures Parse(Fixed(w, n)) == n
  {
    if w > 0 {
      ParseFixed(w - 1, n / 10);
      assert Fixed(w, n)[..w - 1] == Fixed(w - 1, n / 10);
    }
  }

  // ---------- sorting ----------

  ghost predicate Sorted(s: seq<bytes>)
  {
    forall i, j :: 0 <= i < j < |s| ==> !Less(s[j], s[i])
  }

  ghost predicate StrictlySorted(s: seq<bytes>)
  {
    forall i, j :: 0 <= i < j < |s| ==> Less(s[i], s[j])
  }

  lemma {:induction false} SameFirst(a: seq<bytes>, b: seq<bytes>)
    requires StrictlySorted(a) && Sorted(b) && a != [] && b != [] && a[0] in b && b[0] in a
    ensures a[0] == b[0]
  {
    hide Less;
    var x, y := a[0], b[0];
    assert x != y ==> Less(x, y);
  }

  lemma {:induction false} TailsSorted(a: seq<bytes>, b: seq<bytes>)
    requires StrictlySorted(a) && Sorted(b) && a != [] && b != []
    ensures StrictlySorted(a[1..]) && Sorted(b[1..])
  {
    hide Less;
  }

  /** Whatever order a directory walk finds strictly ordered names in, sorting them gives one result. */
  lemma {:induction false} SortingIsUnique(a: seq<bytes>, b: seq<bytes>)
    requires StrictlySorted(a) && Sorted(b) && multiset(a) == multiset(b)
    ensures a == b
  {
    hide Less;
    assert |a| == |multiset(a)| == |b|;
    if a != [] {
      assert a[0] in multiset(b) && b[0] in multiset(a);
      SameFirst(a, b);
      hide StrictlySorted, Sorted;
      TailsSorted(a, b);
      assert a == [a[0]] + a[1..] && b == [b[0]] + b[1..];
      assert multiset(a[1..]) == multiset(a) - multiset{a[0]};
      assert multiset(b[1..]) == multiset(b) - multiset{b[0]};
      SortingIsUnique(a[1..], b[1..]);
    }
  }

  /**
   The names of a strictly ascending list of numbers are strictly sorted, so that sorting the paths never reorders them.
   */
  lemma {:induction false} NamesOfAscending(prefix: bytes, w: nat, numbers: seq<nat>, suffix: bytes, names: seq<bytes>)
    requires w >= 1 && |names| == |numbers|
    requires forall i, j :: 0 <= i < j < |numbers| ==> numbers[i] < numbers[j]
    requires forall i :: 0 <= i < |numbers| ==>
               numbers[i] < Pow10(w) && names[i] == prefix + (Padded(w, numbers[i]) + suffix)
    ensures StrictlySorted(names)
  {
    forall i, j | 0 <= i < j < |names| ensures Less(names[i], names[j]) {
      NameOrder(prefix, w, numbers[i], numbers[j], suffix);
    }
  }

  /** `sort.Strings`, as insertion into a sorted list. */
  function SortStrings(s: seq<bytes>): (r: seq<bytes>)
    ensures Sorted(r) && multiset(r) == multiset(s)
  {
    if s == [] then [] else
      assert s == s[..|s| - 1] + [s[|s| - 1]];
      InsertString(SortStrings(s[..|s| - 1]), s[|s| - 1])
  }

  function InsertString(s: seq<bytes>, x: bytes): (r: seq<bytes>)
    requires Sorted(s)
    ensures Sorted(r) && multiset(r) == multiset(s) + multiset{x}
  {
    if s == [] then [x]
    else
      var n := |s| - 1;
      assert s == s[..n] + [s[n]];
      LessTrichotomy(s[n], x);
      if Less(x, s[n]) then
        InsertedBelow(s, x, InsertString(s[..n], x));
        InsertString(s[..n], x) + [s[n]]
      else
        InsertedAbove(s, x);
        s + [x]
  }

  lemma {:induction false} InsertedAbove(s: seq<bytes>, x: bytes)
    requires Sorted(s) && s != [] && !Less(x, s[|s| - 1])
    ensures Sorted(s + [x])
  {
    hide Less;
    var n := |s| - 1;
    forall i | 0 <= i < |s| ensures !Less(x, s[i]) {
      LessTrichotomy(s[i], s[n]);
      if i < n && Less(x, s[i]) && s[i] != s[n] {
        LessTransitive(x, s[i], s[n]);
      }
    }
  }

  lemma {:induction false} InsertedBelow(s: seq<bytes>, x: bytes, r: seq<bytes>)
    requires Sorted(s) && s != [] && Less(x, s[|s| - 1])
    requires Sorted(r) && multiset(r) == multiset(s[..|s| - 1]) + multiset{x}
    ensures Sorted(r + [s[|s| - 1]])
  {
    hide Less;
    var n := |s| - 1;
    LessTrichotomy(x, s[n]);
    forall i | 0 <= i < |r| ensures !Less(s[n], r[i]) {
      assert r[i] in multiset(r);
      if r[i] != x {
        assert r[i] in multiset(s[..n]);
        var j :| 0 <= j < n && s[..n][j] == r[i];
        assert s[j] == r[i];
      }
    }
  }
}
