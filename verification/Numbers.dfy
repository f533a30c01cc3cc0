/** Numbers as text: num2str and atoi, and sorting by a number as std::sort does it.
    Numbers are unbounded; overflow of the machine's int is not modelled. */
module Numbers {
  import opened Wrappers

  function DigitOf(d: nat): (c: char)
    requires d < 10
    ensures '0' <= c <= '9'
  {
    "0123456789"[d]
  }

  predicate IsDigit(c: char) {
    '0' <= c <= '9'
  }

  /** num2str, for numbers that are not negative. */
  function Num2Str(n: nat): (s: string)
    ensures s != "" && forall c :: c in s ==> IsDigit(c)
  {
    (if n < 10 then "" else Num2Str(n / 10)) + [DigitOf(n % 10)]
  }

  /** Reads digits after the number `seen`, up to the first other character. */
  function ReadDigits(s: string, seen: nat): nat {
    if s == "" || !IsDigit(s[0]) then seen
    else ReadDigits(s[1..], 10 * seen + (s[0] as int - '0' as int))
  }

  predicate IsSpace(c: char) {
    c == ' ' || 9 <= c as int <= 13
  }

  /** atoi: white space, a sign, digits; 0 when there are no digits. */
  function Atoi(s: string): int {
    if s == "" then 0
    else if IsSpace(s[0]) then Atoi(s[1..])
    else if s[0] == '-' then 0 - ReadDigits(s[1..], 0)
    else if s[0] == '+' then ReadDigits(s[1..], 0)
    else ReadDigits(s, 0)
  }

  lemma {:induction false} ReadDigitsSnoc(s: string, d: nat, seen: nat)
    requires d < 10 && forall c :: c in s ==> IsDigit(c)
    ensures ReadDigits(s + [DigitOf(d)], seen) == 10 * ReadDigits(s, seen) + d
  {
    var t := s + [DigitOf(d)];
    if s == "" {
      assert t[1..] == "";
    } else {
      assert IsDigit(s[0]);
      assert t[1..] == s[1..] + [DigitOf(d)];
      ReadDigitsSnoc(s[1..], d, 10 * seen + (s[0] as int - '0' as int));
    }
  }

  lemma {:induction false} ReadBack(n: nat)
    ensures ReadDigits(Num2Str(n), 0) == n
  {
    if n < 10 {
      ReadDigitsSnoc("", n, 0);
      assert "" + [DigitOf(n)] == Num2Str(n);
    } else {
      ReadBack(n / 10);
      ReadDigitsSnoc(Num2Str(n / 10), n % 10, 0);
    }
  }

  /** atoi undoes num2str. */
  lemma AtoiOfNum2Str(n: nat)
    ensures Atoi(Num2Str(n)) == n
  {
    ReadBack(n);
    assert IsDigit(Num2Str(n)[0]);
  }

  lemma {:induction false} DigitsThenOther(digits: string, rest: string, seen: nat)
    requires (forall c :: c in digits ==> IsDigit(c)) && (rest != "" ==> !IsDigit(rest[0]))
    ensures ReadDigits(digits + rest, seen) == ReadDigits(digits, seen)
  {
    if digits == "" {
      assert digits + rest == rest;
    } else {
      assert digits[0] in digits && (digits + rest)[1..] == digits[1..] + rest;
      DigitsThenOther(digits[1..], rest, 10 * seen + (digits[0] as int - '0' as int));
    }
  }

  /** A number text is read up to the text behind it. */
  lemma AtoiBefore(n: nat, rest: string)
    requires rest != "" ==> !IsDigit(rest[0])
    ensures Atoi(Num2Str(n) + rest) == n
  {
    var digits := Num2Str(n);
    DigitsThenOther(digits, rest, 0);
    ReadBack(n);
    assert IsDigit(digits[0]) && (digits + rest)[0] == digits[0];
  }

  // ----- sorting -----

  /** An element of a list that is sorted by a number. */
  datatype Ranked<T> = Ranked(rank: int, item: T)

  ghost predicate Ascending<T>(s: seq<Ranked<T>>) {
    forall i, j :: 0 <= i < j < |s| ==> s[i].rank <= s[j].rank
  }

  lemma InsertedAt<T>(s: seq<Ranked<T>>, x: Ranked<T>, at: nat, r: seq<Ranked<T>>)
    requires at <= |s| && Ascending(s) && |r| == |s| + 1
    requires forall i :: 0 <= i < at ==> s[i].rank <= x.rank
    requires at < |s| ==> x.rank <= s[at].rank
    requires r[at] == x
    requires forall i :: 0 <= i < at ==> r[i] == s[i]
    requires forall i :: at < i < |r| ==> r[i] == s[i - 1]
    ensures Ascending(r)
  {
    assert forall i :: at <= i < |s| ==> x.rank <= s[i].rank;
  }

  lemma InsertedOne<T>(s: seq<T>, x: T, at: nat)
    requires at <= |s|
    ensures multiset(s[..at] + [x] + s[at..]) == multiset(s) + multiset{x}
  {
    assert s == s[..at] + s[at..];
  }

  /** `s` with `x` put behind the elements that do not rank above it. */
  method Insert<T>(s: seq<Ranked<T>>, x: Ranked<T>) returns (r: seq<Ranked<T>>)
    requires Ascending(s)
    ensures multiset(r) == multiset(s) + multiset{x}
    ensures Ascending(r)
  {
    var at := 0;
    while at < |s| && s[at].rank <= x.rank
      invariant at <= |s|
      invariant forall i :: 0 <= i < at ==> s[i].rank <= x.rank
    {
      at := at + 1;
    }
    r := s[..at] + [x] + s[at..];
    InsertedOne(s, x, at);
    InsertedAt(s, x, at, r);
  }

  /** std::sort by the rank: an ascending rearrangement. Nothing is promised for equal ranks. */
  method Sort<T>(s: seq<Ranked<T>>) returns (r: seq<Ranked<T>>)
    ensures multiset(r) == multiset(s)
    ensures Ascending(r)
  {
    r := [];
    for n := 0 to |s|
      invariant multiset(r) == multiset(s[..n])
      invariant Ascending(r)
    {
      assert s[..n + 1] == s[..n] + [s[n]];
      r := Insert(r, s[n]);
    }
    assert s[..|s|] == s;
  }

  lemma {:induction false} OnceMultiset<T(!new)>(s: seq<T>)
    ensures Once(s) <==> forall x :: multiset(s)[x] <= 1
  {
    if s != [] {
      var rest := s[..|s| - 1];
      var x := s[|s| - 1];
      assert s == rest + [x];
      OnceMultiset(rest);
      assert multiset(s) == multiset(rest) + multiset{x};
      if Once(s) {
        assert Once(rest) by {
          forall i, j | 0 <= i < j < |rest| ensures rest[i] != rest[j] {
            assert s[i] != s[j];
          }
        }
        assert x !in rest;
        forall y ensures multiset(s)[y] <= 1 {
          assert multiset(rest)[y] <= 1;
        }
      }
      if forall y :: multiset(s)[y] <= 1 {
        assert multiset(s)[x] == multiset(rest)[x] + 1;
        assert x !in multiset(rest);
        forall y ensures multiset(rest)[y] <= 1 {
          assert multiset(s)[y] <= 1;
        }
      }
    }
  }

  /** Rearranging keeps the members, and keeps each one at one place. */
  lemma Rearranged<T(!new)>(s: seq<T>, r: seq<T>)
    requires multiset(r) == multiset(s)
    ensures |r| == |s|
    ensures forall x :: x in r <==> x in s
    ensures Once(s) ==> Once(r)
  {
    assert |multiset(r)| == |multiset(s)|;
    forall x ensures x in r <==> x in s {
      assert x in r <==> x in multiset(r);
    }
    OnceMultiset(s);
    OnceMultiset(r);
  }

  function Items<T>(s: seq<Ranked<T>>): (r: seq<T>)
    ensures |r| == |s| && forall i :: 0 <= i < |s| ==> r[i] == s[i].item
  {
    if s == [] then [] else Items(s[..|s| - 1]) + [s[|s| - 1].item]
  }

  lemma ItemIn<T(!new)>(s: seq<Ranked<T>>, x: T)
    ensures x in Items(s) <==> exists i :: 0 <= i < |s| && s[i].item == x
  {
    if i :| 0 <= i < |s| && s[i].item == x {
      assert Items(s)[i] == x;
    }
  }

  lemma SubItems<T(!new)>(s: seq<Ranked<T>>, r: seq<Ranked<T>>, x: T)
    requires (forall y :: y in r ==> y in s) && x in Items(r)
    ensures x in Items(s)
  {
    ItemIn(r, x);
    ItemIn(s, x);
    var i :| 0 <= i < |r| && r[i].item == x;
    assert r[i] in s;
  }

  lemma OnceItems<T(!new)>(s: seq<Ranked<T>>, a: Ranked<T>, b: Ranked<T>)
    requires Once(Items(s)) && a in s && b in s && a.item == b.item
    ensures a == b
  {
    var i :| 0 <= i < |s| && s[i] == a;
    var j :| 0 <= j < |s| && s[j] == b;
    assert Items(s)[i] == Items(s)[j];
  }

  /** The items of a rearranged list: the same ones, each once if they were once before. */
  lemma ItemsRearranged<T(!new)>(s: seq<Ranked<T>>, r: seq<Ranked<T>>)
    requires multiset(r) == multiset(s) && Once(Items(s))
    ensures |r| == |s| && Once(Items(r))
    ensures forall x :: x in Items(r) <==> x in Items(s)
  {
    hide Items;
    assert forall i, j :: 0 <= i < j < |s| ==> Items(s)[i] != Items(s)[j];
    Rearranged(s, r);
    forall i, j | 0 <= i < j < |r| ensures Items(r)[i] != Items(r)[j] {
      assert r[i] in s && r[j] in s;
      if r[i].item == r[j].item {
        OnceItems(s, r[i], r[j]);
      }
    }
    forall x ensures x in Items(r) <==> x in Items(s) {
      if x in Items(r) {
        SubItems(s, r, x);
      }
      if x in Items(s) {
        SubItems(r, s, x);
      }
    }
  }
}
