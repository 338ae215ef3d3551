/** The `seed_toothcodes` management command: the FDI two-digit tooth numbers (ISO 3950),
    quadrant digit first and position second, and the get-or-create loop that puts one
    tooth-code row per number and dentition into the table. */
module ToothCodes {
  import opened Common
  import opened Text

  /** `list(range(lo, hi))`. */
  function Range(lo: nat, hi: nat): (r: seq<nat>)
    requires lo <= hi
    ensures |r| == hi - lo
    ensures forall i :: 0 <= i < |r| ==> r[i] == lo + i
  {
    seq(hi - lo, i requires 0 <= i < hi - lo => lo + i)
  }

  /** Quadrants 1-4, positions 1-8. */
  const Permanent: seq<nat> := Range(11, 19) + Range(21, 29) + Range(31, 39) + Range(41, 49)

  /** Quadrants 5-8, positions 1-5. */
  const Primary: seq<nat> := Range(51, 56) + Range(61, 66) + Range(71, 76) + Range(81, 86)

  predicate StrictlyIncreasing(s: seq<nat>) {
    forall i, j :: 0 <= i < j < |s| ==> s[i] < s[j]
  }

  /** The i-th permanent code is 10·q + t with q = i / 8 + 1 and t = i % 8 + 1. */
  lemma PermanentCodes()
    ensures |Permanent| == 32
    ensures forall i :: 0 <= i < 32 ==> Permanent[i] == 10 * (i / 8 + 1) + i % 8 + 1
  {
    forall i | 0 <= i < 32 ensures Permanent[i] == 10 * (i / 8 + 1) + i % 8 + 1 {
      if i < 8 {
        assert Permanent[i] == Range(11, 19)[i];
      } else if i < 16 {
        assert Permanent[i] == Range(21, 29)[i - 8];
      } else if i < 24 {
        assert Permanent[i] == Range(31, 39)[i - 16];
      } else {
        assert Permanent[i] == Range(41, 49)[i - 24];
      }
    }
  }

  /** The i-th primary code is 10·q + t with q = i / 5 + 5 and t = i % 5 + 1. */
  lemma PrimaryCodes()
    ensures |Primary| == 20
    ensures forall i :: 0 <= i < 20 ==> Primary[i] == 10 * (i / 5 + 5) + i % 5 + 1
  {
    forall i | 0 <= i < 20 ensures Primary[i] == 10 * (i / 5 + 5) + i % 5 + 1 {
      if i < 5 {
        assert Primary[i] == Range(51, 56)[i];
      } else if i < 10 {
        assert Primary[i] == Range(61, 66)[i - 5];
      } else if i < 15 {
        assert Primary[i] == Range(71, 76)[i - 10];
      } else {
        assert Primary[i] == Range(81, 86)[i - 15];
      }
    }
  }

  /** A number is a permanent code exactly when its quadrant digit is 1-4 and its position 1-8. */
  lemma PermanentMembership(c: nat)
    ensures c in Permanent <==> 1 <= c / 10 <= 4 && 1 <= c % 10 <= 8
  {
    PermanentCodes();
    if 1 <= c / 10 <= 4 && 1 <= c % 10 <= 8 {
      var i := (c / 10 - 1) * 8 + c % 10 - 1;
      assert Permanent[i] == c;
    }
  }

  /** A number is a primary code exactly when its quadrant digit is 5-8 and its position 1-5. */
  lemma PrimaryMembership(c: nat)
    ensures c in Primary <==> 5 <= c / 10 <= 8 && 1 <= c % 10 <= 5
  {
    PrimaryCodes();
    if 5 <= c / 10 <= 8 && 1 <= c % 10 <= 5 {
      var i := (c / 10 - 5) * 5 + c % 10 - 1;
      assert Primary[i] == c;
    }
  }

  /** Both lists are strictly increasing, share no code, and every code has two digits. */
  lemma CodeListsShape()
    ensures StrictlyIncreasing(Permanent) && StrictlyIncreasing(Primary)
    ensures forall i, j :: 0 <= i < |Permanent| && 0 <= j < |Primary| ==> Permanent[i] < Primary[j]
    ensures forall i :: 0 <= i < |Permanent| ==> 10 <= Permanent[i] <= 99 && |NatToString(Permanent[i])| == 2
    ensures forall i :: 0 <= i < |Primary| ==> 10 <= Primary[i] <= 99 && |NatToString(Primary[i])| == 2
  {
    PermanentCodes();
    PrimaryCodes();
    forall i | 0 <= i < |Permanent| ensures |NatToString(Permanent[i])| == 2 {
      TwoDigits(Permanent[i]);
    }
    forall i | 0 <= i < |Primary| ensures |NatToString(Primary[i])| == 2 {
      TwoDigits(Primary[i]);
    }
  }

  lemma TwoDigits(n: nat)
    requires 10 <= n <= 99
    ensures |NatToString(n)| == 2
  {
    assert NatToString(n) == NatToString(n / 10) + [DigitChar(n % 10)];
  }

  /** `str(n)` tells numbers apart. */
  lemma NatToStringInjective(m: nat, n: nat)
    requires NatToString(m) == NatToString(n)
    ensures m == n
  {
    DigitsValueOfNatToString(m);
    DigitsValueOfNatToString(n);
  }

  // ---------------------------------------------------------------------------
  // The Toothcode table and Command.handle

  /** The two columns `get_or_create` matches on; the other columns keep their defaults. */
  datatype Toothcode = Toothcode(number: string, kind: string)

  /** The `(str(v), type)` pairs `handle` asks for, permanent ones first. */
  function Seeds(): (s: seq<Toothcode>)
    ensures |s| == |Permanent| + |Primary|
    ensures forall i :: 0 <= i < |Permanent| ==> s[i] == Toothcode(NatToString(Permanent[i]), "permanent")
    ensures forall i :: 0 <= i < |Primary| ==> s[|Permanent| + i] == Toothcode(NatToString(Primary[i]), "primary")
  {
    seq(|Permanent|, i requires 0 <= i < |Permanent| => Toothcode(NatToString(Permanent[i]), "permanent"))
    + seq(|Primary|, i requires 0 <= i < |Primary| => Toothcode(NatToString(Primary[i]), "primary"))
  }

  predicate Distinct(s: seq<Toothcode>) {
    forall i, j :: 0 <= i < |s| && 0 <= j < |s| && i != j ==> s[i] != s[j]
  }

  /** The same pair is never asked for twice. */
  lemma SeedsDistinct()
    ensures Distinct(Seeds())
  {
    var s := Seeds();
    CodeListsShape();
    forall i, j | 0 <= i < |s| && 0 <= j < |s| && i != j ensures s[i] != s[j] {
      if i < |Permanent| && j < |Permanent| {
        if s[i] == s[j] {
          NatToStringInjective(Permanent[i], Permanent[j]);
        }
      } else if i >= |Permanent| && j >= |Permanent| {
        if s[i] == s[j] {
          NatToStringInjective(Primary[i - |Permanent|], Primary[j - |Permanent|]);
        }
      }
    }
  }

  /** How many rows of the table equal `t`. */
  function Occurrences(rows: seq<Toothcode>, t: Toothcode): (n: nat)
    ensures n <= |rows|
    ensures n == 0 <==> t !in rows
  {
    if rows == [] then 0 else (if rows[0] == t then 1 else 0) + Occurrences(rows[1..], t)
  }

  lemma {:induction false} OccurrencesConcat(a: seq<Toothcode>, b: seq<Toothcode>, t: Toothcode)
    ensures Occurrences(a + b, t) == Occurrences(a, t) + Occurrences(b, t)
  {
    if a == [] {
      assert a + b == b;
    } else {
      assert (a + b)[1..] == a[1..] + b;
      OccurrencesConcat(a[1..], b, t);
    }
  }

  /** The asked-for pairs that the table does not yet hold, in the order they are asked for. */
  function Missing(rows: seq<Toothcode>, wanted: seq<Toothcode>): seq<Toothcode> {
    Filter(wanted, t => t !in rows)
  }

  datatype Fetch = Fetched | Created | MultipleReturned

  class ToothcodeTable {
    var rows: seq<Toothcode>

    constructor (initial: seq<Toothcode>)
      ensures rows == initial
    {
      rows := initial;
    }

    /** `Toothcode.objects.get_or_create(...)`: fetch the one matching row, insert a new row
        when there is none, and fail when there are several. */
    method GetOrCreate(t: Toothcode) returns (r: Fetch)
      modifies this
      ensures r == (if t !in old(rows) then Created else if Occurrences(old(rows), t) == 1 then Fetched else MultipleReturned)
      ensures rows == if r == Created then old(rows) + [t] else old(rows)
    {
      var n := Occurrences(rows, t);
      if n == 0 {
        rows := rows + [t];
        r := Created;
      } else if n == 1 {
        r := Fetched;
      } else {
        r := MultipleReturned;
      }
    }

    /** One iteration of either loop of `handle`, for the `k`-th asked-for pair `t`. */
    method SeedOne(ghost before: seq<Toothcode>, ghost s: seq<Toothcode>, k: nat, t: Toothcode) returns (c: Fetch)
      requires Distinct(s) && k < |s| && t == s[k]
      requires rows == before + Missing(before, s[..k])
      modifies this
      ensures c == MultipleReturned <==> Occurrences(before, t) > 1
      ensures c == Created <==> t !in before
      ensures c != MultipleReturned ==> rows == before + Missing(before, s[..k + 1])
      ensures c == MultipleReturned ==> rows == old(rows)
      ensures |Missing(before, s[..k + 1])| == |Missing(before, s[..k])| + if c == Created then 1 else 0
    {
      SeedStep(before, s, k);
      c := GetOrCreate(t);
    }

    /** One loop of `handle`: get-or-create `(str(v), kind)` for every code `v`, in order,
        where these are the pairs `offset` onwards of the asked-for pairs `s`, counting on from
        `created`. It stops with the pair's position in `s` as soon as one is held twice. */
    method SeedList(ghost before: seq<Toothcode>, ghost s: seq<Toothcode>, offset: nat,
                    codes: seq<nat>, kind: string, created: nat) returns (r: Result<nat, nat>)
      requires Distinct(s) && offset + |codes| <= |s|
      requires forall i :: 0 <= i < |codes| ==> s[offset + i] == Toothcode(NatToString(codes[i]), kind)
      requires rows == before + Missing(before, s[..offset]) && created == |Missing(before, s[..offset])|
      requires forall i :: 0 <= i < offset ==> Occurrences(before, s[i]) <= 1
      modifies this
      ensures r.Ok? ==> && rows == before + Missing(before, s[..offset + |codes|])
                        && r.value == |Missing(before, s[..offset + |codes|])|
                        && forall i :: 0 <= i < offset + |codes| ==> Occurrences(before, s[i]) <= 1
      ensures r.Err? ==> && offset <= r.error < offset + |codes|
                         && Occurrences(before, s[r.error]) > 1
                         && (forall i :: 0 <= i < r.error ==> Occurrences(before, s[i]) <= 1)
                         && rows == before + Missing(before, s[..r.error])
    {
      var count := created;
      for k := 0 to |codes|
        invariant rows == before + Missing(before, s[..offset + k])
        invariant count == |Missing(before, s[..offset + k])|
        invariant forall i :: 0 <= i < offset + k ==> Occurrences(before, s[i]) <= 1
      {
        var c := SeedOne(before, s, offset + k, Toothcode(NatToString(codes[k]), kind));
        if c == MultipleReturned {
          return Err(offset + k);
        }
        count := count + if c == Created then 1 else 0;
      }
      r := Ok(count);
    }

    /** `handle`: get-or-create every permanent and then every primary pair, counting the rows
        created. It succeeds exactly when no asked-for pair is already held twice; then it
        appends the missing pairs in order and counts them. Otherwise it stops at the first
        such pair `k`, having appended the pairs missing before it. */
    method Handle() returns (r: Result<nat, nat>)
      modifies this
      ensures r.Ok? <==> forall i :: 0 <= i < |Seeds()| ==> Occurrences(old(rows), Seeds()[i]) <= 1
      ensures r.Ok? ==> rows == old(rows) + Missing(old(rows), Seeds()) && r.value == |Missing(old(rows), Seeds())|
      ensures r.Err? ==> (
        && r.error < |Seeds()|
        && Occurrences(old(rows), Seeds()[r.error]) > 1
        && (forall i :: 0 <= i < r.error ==> Occurrences(old(rows), Seeds()[i]) <= 1)
        && rows == old(rows) + Missing(old(rows), Seeds()[..r.error]))
    {
      var s := Seeds();
      ghost var before := rows;
      SeedsDistinct();
      assert s[..0] == [];
      r := SeedList(before, s, 0, Permanent, "permanent", 0);
      if r.Err? {
        return;
      }
      r := SeedList(before, s, |Permanent|, Primary, "primary", r.value);
      if r.Ok? {
        assert s[..|s|] == s;
      }
    }
  }

  /** One get-or-create step: the rows appended so far never contain the next pair, so it is
      held exactly as often as before the command, and it joins the missing pairs when absent. */
  lemma SeedStep(before: seq<Toothcode>, s: seq<Toothcode>, k: nat)
    requires Distinct(s) && k < |s|
    ensures Occurrences(before + Missing(before, s[..k]), s[k]) == Occurrences(before, s[k])
    ensures Missing(before, s[..k + 1]) == Missing(before, s[..k]) + if s[k] in before then [] else [s[k]]
  {
    NotYetMissing(before, s, k);
    OccurrencesConcat(before, Missing(before, s[..k]), s[k]);
    MissingAppend(before, s, k);
  }

  /** No pair asked for before the `k`-th is the `k`-th pair. */
  lemma NotYetMissing(before: seq<Toothcode>, s: seq<Toothcode>, k: nat)
    requires Distinct(s) && k < |s|
    ensures s[k] !in Missing(before, s[..k])
  {
    var m := Missing(before, s[..k]);
    forall i | 0 <= i < |m| ensures m[i] != s[k] {
      assert m[i] in s[..k];
      var j :| 0 <= j < k && s[..k][j] == m[i];
      assert s[j] == m[i];
    }
  }

  /** Asking for one more pair adds it to the missing ones exactly when the table lacks it. */
  lemma MissingAppend(before: seq<Toothcode>, s: seq<Toothcode>, k: nat)
    requires k < |s|
    ensures Missing(before, s[..k + 1]) == Missing(before, s[..k]) + if s[k] in before then [] else [s[k]]
  {
    assert s[..k + 1] == s[..k] + [s[k]];
    FilterConcat(s[..k], [s[k]], t => t !in before);
    assert [s[k]][1..] == [];
  }

  /** After a successful run every asked-for pair is held exactly once, so a second run
      creates nothing and leaves the table as it is. */
  lemma SecondRunCreatesNothing(before: seq<Toothcode>)
    requires forall i :: 0 <= i < |Seeds()| ==> Occurrences(before, Seeds()[i]) <= 1
    ensures forall i :: 0 <= i < |Seeds()| ==>
              Occurrences(before + Missing(before, Seeds()), Seeds()[i]) == 1
    ensures Missing(before + Missing(before, Seeds()), Seeds()) == []
  {
    var s := Seeds();
    var after := before + Missing(before, s);
    SeedsDistinct();
    forall i | 0 <= i < |s| ensures Occurrences(after, s[i]) == 1 {
      OccurrencesConcat(before, Missing(before, s), s[i]);
      MissingOccurrences(before, s, i);
    }
    FilterDropsAll(s, t => t !in after);
  }

  /** Each asked-for pair appears among the missing ones once if it was absent, never otherwise. */
  lemma {:induction false} MissingOccurrences(before: seq<Toothcode>, s: seq<Toothcode>, i: nat)
    requires Distinct(s) && i < |s|
    ensures Occurrences(Missing(before, s), s[i]) == if s[i] in before then 0 else 1
  {
    assert s == s[..i] + [s[i]] + s[i + 1..];
    FilterConcat(s[..i] + [s[i]], s[i + 1..], t => t !in before);
    FilterConcat(s[..i], [s[i]], t => t !in before);
    var p := t => t !in before;
    assert s[i] !in Filter(s[..i], p);
    assert s[i] !in Filter(s[i + 1..], p);
    OccurrencesConcat(Filter(s[..i], p) + Filter([s[i]], p), Filter(s[i + 1..], p), s[i]);
    OccurrencesConcat(Filter(s[..i], p), Filter([s[i]], p), s[i]);
  }

  /** On an empty table the command creates all 52 rows. */
  lemma EmptyTableGetsAll()
    ensures Missing([], Seeds()) == Seeds() && |Seeds()| == 52
  {
    PermanentCodes();
    PrimaryCodes();
    FilterKeepsAll(Seeds(), t => t !in []);
  }
}
