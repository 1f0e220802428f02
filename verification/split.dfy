/** The `split<N>` field splitter of ocra.hpp:132-157. It walks the
    NUL-terminated text, storing at most `N` fields, and reports how many
    fields it met; any text left after `N` fields makes the count `N + 1`. */
module Splitter {

  /** What `split<N>` returns: the `N` array slots (unused ones stay empty)
      and the field count. */
  datatype Fields = Fields(items: seq<string>, count: nat)

  /** Index of the first delimiter or NUL, or the length when there is none:
      the `while (data[i] != delimiter && data[i] != '\0') ++i;` scan. */
  function FieldEnd(data: string, delim: char): (i: nat)
    ensures i <= |data|
    ensures i < |data| ==> data[i] == delim || data[i] == '\0'
  {
    if |data| == 0 || data[0] == delim || data[0] == '\0' then 0
    else 1 + FieldEnd(data[1..], delim)
  }

  /** The scanned field holds neither the delimiter nor a NUL. */
  lemma {:induction false} FieldEndClean(data: string, delim: char)
    ensures var i := FieldEnd(data, delim);
      forall j :: 0 <= j < i ==> data[j] != delim && data[j] != '\0'
  {
    if |data| > 0 && data[0] != delim && data[0] != '\0' {
      FieldEndClean(data[1..], delim);
      var i := FieldEnd(data, delim);
      forall j | 0 <= j < i
        ensures data[j] != delim && data[j] != '\0'
      {
        if j > 0 {
          assert data[j] == data[1..][j - 1];
        }
      }
    }
  }

  function Empties(k: nat): (r: seq<string>)
    ensures |r| == k
    ensures forall i :: 0 <= i < k ==> r[i] == ""
  {
    seq(k, _ => "")
  }

  /** `split<N>(data, delim)` with `n` slots. */
  function Split(data: string, delim: char, n: nat): (f: Fields)
    ensures |f.items| == n
    ensures 1 <= f.count <= n + 1
    decreases n
  {
    if n == 0 then Fields([], 1)
    else if |data| == 0 || data[0] == '\0' then Fields(Empties(n), 1)
    else
      var i := FieldEnd(data, delim);
      if i == |data| || data[i] == '\0' then Fields([data[..i]] + Empties(n - 1), 1)
      else
        var rest := Split(data[i + 1..], delim, n - 1);
        Fields([data[..i]] + rest.items, rest.count + 1)
  }

  predicate CleanField(x: string, delim: char)
  {
    delim !in x && '\0' !in x
  }

  predicate AllClean(items: seq<string>, delim: char)
  {
    forall k :: 0 <= k < |items| ==> CleanField(items[k], delim)
  }

  /** No stored field holds the delimiter or a NUL. */
  lemma {:induction false} SplitFieldsClean(data: string, delim: char, n: nat)
    ensures var f := Split(data, delim, n);
      forall k :: 0 <= k < |f.items| ==> CleanField(f.items[k], delim)
    decreases n
  {
    SplitItemsClean(data, delim, n);
  }

  lemma {:induction false} SplitItemsClean(data: string, delim: char, n: nat)
    ensures AllClean(Split(data, delim, n).items, delim)
    decreases n
  {
    if n > 0 && |data| > 0 && data[0] != '\0' {
      var i := FieldEnd(data, delim);
      HeadClean(data, delim);
      if i < |data| && data[i] != '\0' {
        var rest := Split(data[i + 1..], delim, n - 1);
        SplitItemsClean(data[i + 1..], delim, n - 1);
        ConsClean(data[..i], rest.items, delim);
        assert Split(data, delim, n).items == [data[..i]] + rest.items;
      } else {
        EmptiesClean(n - 1, delim);
        ConsClean(data[..i], Empties(n - 1), delim);
        assert Split(data, delim, n).items == [data[..i]] + Empties(n - 1);
      }
    } else if n > 0 {
      EmptiesClean(n, delim);
      assert Split(data, delim, n).items == Empties(n);
    }
  }

  /** The scanned field is clean. */
  lemma HeadClean(data: string, delim: char)
    ensures CleanField(data[..FieldEnd(data, delim)], delim)
  {
    var i := FieldEnd(data, delim);
    var head := data[..i];
    FieldEndClean(data, delim);
    forall c | c in head
      ensures c != delim && c != '\0'
    {
      var j :| 0 <= j < i && head[j] == c;
      assert data[j] == c;
    }
  }

  lemma EmptiesClean(m: nat, delim: char)
    ensures AllClean(Empties(m), delim)
  {
    forall k | 0 <= k < m
      ensures CleanField(Empties(m)[k], delim)
    {
      assert Empties(m)[k] == "";
    }
  }

  lemma ConsClean(head: string, items: seq<string>, delim: char)
    requires CleanField(head, delim) && AllClean(items, delim)
    ensures AllClean([head] + items, delim)
  {
    var all := [head] + items;
    forall k | 1 <= k < |all|
      ensures CleanField(all[k], delim)
    {
      assert all[k] == items[k - 1];
    }
  }

  /** The fields joined back with the delimiter between them. */
  function Join(fs: seq<string>, delim: char): string
  {
    if |fs| == 0 then ""
    else if |fs| == 1 then fs[0]
    else fs[0] + [delim] + Join(fs[1..], delim)
  }

  /** Appending a field appends the delimiter and the field. */
  lemma {:induction false} JoinSnoc(fs: seq<string>, x: string, delim: char)
    requires |fs| >= 1
    ensures Join(fs + [x], delim) == Join(fs, delim) + [delim] + x
  {
    if |fs| > 1 {
      assert (fs + [x])[1..] == fs[1..] + [x];
      JoinSnoc(fs[1..], x, delim);
    } else {
      assert (fs + [x])[1..] == [x];
    }
  }

  /** The part of `s` before its first NUL: what `c_str()` shows. */
  function CStr(s: string): (t: string)
  {
    if |s| == 0 || s[0] == '\0' then [] else [s[0]] + CStr(s[1..])
  }

  /** `CStr` is the longest NUL-free prefix. */
  lemma {:induction false} CStrIsPrefix(s: string)
    ensures CStr(s) <= s && '\0' !in CStr(s)
    ensures |CStr(s)| == |s| || s[|CStr(s)|] == '\0'
  {
    if |s| > 0 && s[0] != '\0' {
      CStrIsPrefix(s[1..]);
    }
  }

  function Occurrences(s: string, c: char): nat
  {
    if |s| == 0 then 0 else (if s[0] == c then 1 else 0) + Occurrences(s[1..], c)
  }

  lemma {:induction false} OccurrencesAppend(a: string, b: string, c: char)
    ensures Occurrences(a + b, c) == Occurrences(a, c) + Occurrences(b, c)
  {
    if |a| > 0 {
      assert (a + b)[1..] == a[1..] + b;
      assert (a + b)[0] == a[0];
      OccurrencesAppend(a[1..], b, c);
    } else {
      assert a + b == b;
    }
  }

  lemma {:induction false} OccurrencesAbsent(s: string, c: char)
    requires c !in s
    ensures Occurrences(s, c) == 0
  {
    if |s| > 0 {
      OccurrencesAbsent(s[1..], c);
    }
  }

  /** A NUL-free prefix passes through `CStr` unchanged. */
  lemma {:induction false} CStrPrefix(s: string, i: nat)
    requires i <= |s| && '\0' !in s[..i]
    ensures CStr(s) == s[..i] + CStr(s[i..])
  {
    if i == 0 {
      assert s[..0] + CStr(s[0..]) == CStr(s);
    } else {
      var t := s[1..];
      assert s[0] == s[..i][0];
      assert t[..i - 1] == s[..i][1..];
      CStrPrefix(t, i - 1);
      assert t[i - 1..] == s[i..];
      assert CStr(s) == [s[0]] + CStr(t);
      assert [s[0]] + t[..i - 1] == s[..i];
    }
  }

  /** The field count is one more than the number of delimiters before the
      terminating NUL, capped at `n + 1`: text left after `n` fields, even a
      lone trailing delimiter, makes the count `n + 1`. */
  lemma {:induction false} SplitCount(data: string, delim: char, n: nat)
    requires delim != '\0'
    ensures Split(data, delim, n).count == Min(Occurrences(CStr(data), delim) + 1, n + 1)
    decreases n
  {
    if n == 0 {
      assert Split(data, delim, n).count == 1;
    } else if |data| == 0 || data[0] == '\0' {
      assert CStr(data) == [];
      assert Split(data, delim, n).count == 1;
    } else {
      var i := FieldEnd(data, delim);
      FirstFieldOccurrences(data, delim);
      if i < |data| && data[i] != '\0' {
        var rest := data[i + 1..];
        SplitCount(rest, delim, n - 1);
        var k := Occurrences(CStr(rest), delim);
        assert Split(data, delim, n).count == Split(rest, delim, n - 1).count + 1;
        assert Occurrences(CStr(data), delim) == k + 1;
        MinShift(k + 1, n);
      } else {
        assert Split(data, delim, n).count == 1;
      }
    }
  }

  /** Delimiters before the NUL: none in the first field, then the one that ends it. */
  lemma FirstFieldOccurrences(data: string, delim: char)
    requires delim != '\0'
    ensures var i := FieldEnd(data, delim);
      if i == |data| || data[i] == '\0' then Occurrences(CStr(data), delim) == 0
      else Occurrences(CStr(data), delim) == 1 + Occurrences(CStr(data[i + 1..]), delim)
  {
    var i := FieldEnd(data, delim);
    var head := data[..i];
    FieldEndClean(data, delim);
    assert '\0' !in head && delim !in head;
    CStrPrefix(data, i);
    OccurrencesAbsent(head, delim);
    OccurrencesAppend(head, CStr(data[i..]), delim);
    if i == |data| || data[i] == '\0' {
      assert CStr(data[i..]) == [];
    } else {
      var rest := data[i + 1..];
      assert data[i..] == [delim] + rest;
      assert CStr(data[i..]) == [delim] + CStr(rest);
    }
  }

  function Min(a: nat, b: nat): nat
  {
    if a <= b then a else b
  }

  lemma MinShift(a: nat, b: nat)
    ensures Min(a, b) + 1 == Min(a + 1, b + 1)
  {
  }

  /** Joining the fields Split produces gives the text back, and the unused slots are empty. */
  predicate Rejoins(data: string, delim: char, n: nat)
  {
    var f := Split(data, delim, n);
    f.count <= n
    && Join(f.items[..f.count], delim) == data && f.items[f.count..] == Empties(n - f.count)
  }

  /** When no more than `n` fields were met, the stored fields joined with the
      delimiter give back the text, and the unused slots stay empty. */
  lemma {:induction false} SplitJoin(data: string, delim: char, n: nat)
    requires delim != '\0' && '\0' !in data
    requires Split(data, delim, n).count <= n
    ensures var f := Split(data, delim, n);
      Join(f.items[..f.count], delim) == data && f.items[f.count..] == Empties(n - f.count)
    decreases n, 1
  {
    var i := FieldEnd(data, delim);
    if |data| > 0 && i < |data| {
      assert Rejoins(data, delim, n) by {
        SplitJoinCons(data, delim, n, i);
      }
    } else {
      SplitJoinLast(data, delim, n);
    }
  }

  /** A text with a delimiter: the rest is split and joined back first. */
  lemma {:induction false} SplitJoinCons(data: string, delim: char, n: nat, i: nat)
    requires delim != '\0' && '\0' !in data
    requires Split(data, delim, n).count <= n
    requires i == FieldEnd(data, delim) && i < |data|
    ensures Rejoins(data, delim, n)
    decreases n, 0
  {
    var rest := Split(data[i + 1..], delim, n - 1);
    assert n >= 1 && data[i] == delim && '\0' !in data[i + 1..] && rest.count <= n - 1 by {
      SplitJoinNext(data, delim, n, i);
    }
    assert Rejoins(data[i + 1..], delim, n - 1) by {
      SplitJoin(data[i + 1..], delim, n - 1);
    }
    SplitJoinStep(data, delim, n, i);
  }

  /** Before a delimiter the text after it is split into one slot fewer. */
  lemma SplitJoinNext(data: string, delim: char, n: nat, i: nat)
    requires delim != '\0' && '\0' !in data
    requires Split(data, delim, n).count <= n
    requires i == FieldEnd(data, delim) && i < |data|
    ensures n >= 1 && data[i] == delim && '\0' !in data[i + 1..]
    ensures Split(data[i + 1..], delim, n - 1).count <= n - 1
  {
    assert data[i] == delim;
    SplitUnfold(data, delim, n, i);
    assert Split(data[i + 1..], delim, n - 1).count + 1 == Split(data, delim, n).count;
    NulFreeSuffix(data, i + 1);
  }

  lemma NulFreeSuffix(data: string, j: nat)
    requires '\0' !in data && j <= |data|
    ensures '\0' !in data[j..]
  {
    forall c | c in data[j..]
      ensures c != '\0'
    {
      var k :| 0 <= k < |data| - j && data[j..][k] == c;
      assert data[j + k] == c;
    }
  }

  /** The base case: the text is a single field. */
  lemma SplitJoinLast(data: string, delim: char, n: nat)
    requires delim != '\0' && '\0' !in data && n >= 1
    requires |data| == 0 || FieldEnd(data, delim) == |data|
    ensures var f := Split(data, delim, n);
      f.count == 1 && Join(f.items[..f.count], delim) == data && f.items[f.count..] == Empties(n - f.count)
  {
    var f := Split(data, delim, n);
    if |data| == 0 {
      assert f == Fields(Empties(n), 1);
    } else {
      assert data[..|data|] == data;
      assert f == Fields([data] + Empties(n - 1), 1);
    }
    assert f.items[1..] == Empties(n - 1);
  }

  /** The inductive step: the first field, its delimiter, then the rest. */
  lemma SplitJoinStep(data: string, delim: char, n: nat, i: nat)
    requires delim != '\0' && n >= 1
    requires i == FieldEnd(data, delim) && i < |data| && data[i] == delim
    requires Rejoins(data[i + 1..], delim, n - 1)
    ensures Rejoins(data, delim, n)
  {
    var rest := Split(data[i + 1..], delim, n - 1);
    SplitUnfold(data, delim, n, i);
    RejoinCons(data, delim, n, i, rest.items, rest.count);
  }

  /** The same step on plain sequences: a first field in front of the fields of
      the text after the delimiter. */
  lemma RejoinCons(data: string, delim: char, n: nat, i: nat, items: seq<string>, count: nat)
    requires n >= 1 && i < |data| && data[i] == delim
    requires |items| == n - 1 && 1 <= count <= n - 1
    requires Join(items[..count], delim) == data[i + 1..]
    requires items[count..] == Empties(n - 1 - count)
    ensures var all := [data[..i]] + items;
      Join(all[..count + 1], delim) == data && all[count + 1..] == Empties(n - (count + 1))
  {
    ConsFields(data[..i], items, count, data[i + 1..], delim);
    AroundDelimiter(data, i);
  }

  /** Putting a field in front of `k` joined fields. */
  lemma ConsFields(head: string, items: seq<string>, k: nat, tail: string, delim: char)
    requires 1 <= k <= |items| && Join(items[..k], delim) == tail
    ensures var all := [head] + items;
      Join(all[..k + 1], delim) == head + [delim] + tail && all[k + 1..] == items[k..]
  {
    JoinConsPrefix(head, items, k, delim);
  }

  lemma AroundDelimiter(data: string, i: nat)
    requires i < |data|
    ensures data[..i] + [data[i]] + data[i + 1..] == data
  {
  }

  /** One step of `split`: the first field, then the split of what follows its
      delimiter. */
  lemma SplitUnfold(data: string, delim: char, n: nat, i: nat)
    requires delim != '\0' && n >= 1
    requires i == FieldEnd(data, delim) && i < |data| && data[i] == delim
    ensures var rest := Split(data[i + 1..], delim, n - 1);
      Split(data, delim, n) == Fields([data[..i]] + rest.items, rest.count + 1)
  {
    assert data[0] != '\0';
  }

  lemma JoinConsPrefix(head: string, items: seq<string>, k: nat, delim: char)
    requires 1 <= k <= |items|
    ensures Join(([head] + items)[..k + 1], delim) == head + [delim] + Join(items[..k], delim)
  {
    var x := ([head] + items)[..k + 1];
    assert x[0] == head;
    assert x[1..] == items[..k];
  }

  /** Splitting the join of delimiter-free fields gives the fields back: the
      inverse direction, used to parse a rendered suite. */
  lemma {:induction false} JoinSplit(fs: seq<string>, delim: char, n: nat)
    requires delim != '\0' && 1 <= |fs| <= n
    requires forall i :: 0 <= i < |fs| ==> delim !in fs[i] && '\0' !in fs[i]
    ensures Split(Join(fs, delim), delim, n) == Fields(fs + Empties(n - |fs|), |fs|)
    decreases n
  {
    if |fs| == 1 {
      JoinSplitSingle(fs[0], delim, n);
      assert [fs[0]] == fs;
    } else {
      JoinSplit(fs[1..], delim, n - 1);
      JoinSplitStep(fs, delim, n);
    }
  }

  lemma JoinSplitSingle(field: string, delim: char, n: nat)
    requires delim != '\0' && 1 <= n
    requires delim !in field && '\0' !in field
    ensures Split(field, delim, n) == Fields([field] + Empties(n - 1), 1)
  {
    if |field| == 0 {
      assert [field] + Empties(n - 1) == Empties(n);
    } else {
      FieldEndAt(field, delim, |field|);
      assert field[..|field|] == field;
    }
  }

  lemma JoinSplitStep(fs: seq<string>, delim: char, n: nat)
    requires delim != '\0' && 2 <= |fs| <= n
    requires delim !in fs[0] && '\0' !in fs[0]
    requires Split(Join(fs[1..], delim), delim, n - 1) == Fields(fs[1..] + Empties(n - |fs|), |fs| - 1)
    ensures Split(Join(fs, delim), delim, n) == Fields(fs + Empties(n - |fs|), |fs|)
  {
    var head, tail := fs[0], Join(fs[1..], delim);
    var data := head + [delim] + tail;
    assert Join(fs, delim) == data;
    FirstField(head, tail, delim);
    SplitUnfold(data, delim, n, |head|);
    var pad := Empties(n - |fs|);
    assert fs + pad == [head] + (fs[1..] + pad);
  }

  /** A delimiter-free first field is scanned up to its delimiter. */
  lemma FirstField(head: string, tail: string, delim: char)
    requires delim != '\0' && delim !in head && '\0' !in head
    ensures var data := head + [delim] + tail;
      && FieldEnd(data, delim) == |head| && data[|head|] == delim
      && data[..|head|] == head && data[|head| + 1..] == tail
  {
    var data := head + [delim] + tail;
    assert data[..|head|] == head;
    assert data[|head| + 1..] == tail;
    assert forall j :: 0 <= j < |head| ==> data[j] == head[j];
    FieldEndAt(data, delim, |head|);
  }

  /** The scan stops exactly at the end of a delimiter-free first field. */
  lemma {:induction false} FieldEndAt(data: string, delim: char, i: nat)
    requires i <= |data|
    requires forall j :: 0 <= j < i ==> data[j] != delim && data[j] != '\0'
    requires i == |data| || data[i] == delim || data[i] == '\0'
    ensures FieldEnd(data, delim) == i
  {
    if i > 0 {
      var t := data[1..];
      assert forall j :: 0 <= j < i - 1 ==> t[j] == data[j + 1];
      FieldEndAt(t, delim, i - 1);
    }
  }
}
