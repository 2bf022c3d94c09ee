/**
 * The header map an `HttpResponse` carries. OkHttp's `Headers.toMultimap()`
 * lower-cases every received header name, groups the values of equal names
 * in the order they were received, and keeps the groups in a `TreeMap`
 * ordered by name under `String.CASE_INSENSITIVE_ORDER`; looking a name up
 * in that map ignores case.
 */
module ResponseHeaders {
  import opened Wrappers
  import opened HttpModels

  /** `Char.lowercaseChar()` under `Locale.US`, for the ASCII capitals. */
  function LowerChar(c: char): char {
    if 'A' <= c <= 'Z' then (c as int + 32) as char else c
  }

  function Lower(s: string): string {
    seq(|s|, i requires 0 <= i < |s| => LowerChar(s[i]))
  }

  /** Lower-casing a lower-cased name changes nothing. */
  lemma LowerIdempotent(s: string)
    ensures Lower(Lower(s)) == Lower(s)
  {
  }

  /** `String.compareTo`: lexicographic order on characters, a proper prefix first. */
  predicate Less(a: string, b: string) {
    if a == [] then b != []
    else if b == [] then false
    else if a[0] != b[0] then a[0] < b[0]
    else Less(a[1..], b[1..])
  }

  lemma {:induction false} LessIrreflexive(a: string)
    ensures !Less(a, a)
  {
    if a != [] {
      LessIrreflexive(a[1..]);
    }
  }

  lemma {:induction false} LessTotal(a: string, b: string)
    ensures a == b || Less(a, b) || Less(b, a)
  {
    if a != [] && b != [] && a[0] == b[0] {
      LessTotal(a[1..], b[1..]);
      if a[1..] == b[1..] {
        assert a == [a[0]] + a[1..];
        assert b == [b[0]] + b[1..];
      }
    }
  }

  lemma {:induction false} LessTransitive(a: string, b: string, c: string)
    requires Less(a, b) && Less(b, c)
    ensures Less(a, c)
  {
    if a != [] && a[0] == b[0] && b[0] == c[0] {
      LessTransitive(a[1..], b[1..], c[1..]);
    }
  }

  /** The names of a multimap. */
  function Names(m: HeaderMultimap): set<string> {
    set p | p in m :: p.0
  }

  /** Names strictly increase along the map, as a `TreeMap` iterates them. */
  ghost predicate Sorted(m: HeaderMultimap) {
    forall i, j :: 0 <= i < j < |m| ==> Less(m[i].0, m[j].0)
  }

  /** Every name is lower case and every group holds at least one value. */
  ghost predicate WellFormed(m: HeaderMultimap) {
    Sorted(m) && forall p :: p in m ==> Lower(p.0) == p.0 && p.1 != []
  }

  /** The values stored under exactly `name`; `[]` when there are none. */
  function Values(m: HeaderMultimap, name: string): seq<string> {
    if m == [] then []
    else if m[0].0 == name then m[0].1
    else Values(m[1..], name)
  }

  /** One step of `toMultimap`: append `value` to the group of `name`, making one if needed. */
  function Insert(m: HeaderMultimap, name: string, value: string): HeaderMultimap {
    if m == [] then [(name, [value])]
    else if m[0].0 == name then [(name, m[0].1 + [value])] + m[1..]
    else if Less(name, m[0].0) then [(name, [value])] + m
    else [m[0]] + Insert(m[1..], name, value)
  }

  /** `Headers.toMultimap()` over the received (name, value) pairs. */
  function ToMultimap(raw: seq<(string, string)>): HeaderMultimap {
    if raw == [] then []
    else
      var n := |raw| - 1;
      Insert(ToMultimap(raw[..n]), Lower(raw[n].0), raw[n].1)
  }

  /**
   * Reference definition: the values received under a name that
   * lower-cases to `name`, in the order they were received.
   */
  function ValuesNamed(raw: seq<(string, string)>, name: string): seq<string> {
    if raw == [] then []
    else
      var n := |raw| - 1;
      ValuesNamed(raw[..n], name) + (if Lower(raw[n].0) == name then [raw[n].1] else [])
  }

  /** A name absent from the map has no values. */
  lemma {:induction false} ValuesAbsent(m: HeaderMultimap, name: string)
    requires name !in Names(m)
    ensures Values(m, name) == []
  {
    if m != [] {
      assert m[0] in m;
      assert forall p :: p in m[1..] ==> p in m;
      ValuesAbsent(m[1..], name);
    }
  }

  /** In a sorted map, a name below the first name is absent. */
  lemma BelowFirstAbsent(m: HeaderMultimap, name: string)
    requires Sorted(m) && m != [] && Less(name, m[0].0)
    ensures name !in Names(m)
  {
    if name in Names(m) {
      var p :| p in m && p.0 == name;
      var j :| 0 <= j < |m| && m[j] == p;
      if j == 0 {
        LessIrreflexive(name);
      } else {
        LessTransitive(name, m[0].0, m[j].0);
        LessIrreflexive(name);
      }
    }
  }

  lemma NamesCons(p: (string, seq<string>), t: HeaderMultimap)
    ensures Names([p] + t) == {p.0} + Names(t)
  {
    assert forall q :: q in [p] + t <==> q == p || q in t;
  }

  /** Inserting adds exactly `name` to the names. */
  lemma {:induction false} InsertNames(m: HeaderMultimap, name: string, value: string)
    ensures Names(Insert(m, name, value)) == Names(m) + {name}
  {
    var r := Insert(m, name, value);
    if m == [] {
    } else if m[0].0 == name {
      assert forall p :: p in r ==> p == r[0] || p in m[1..];
      assert forall p :: p in m ==> p == m[0] || p in r[1..];
    } else if Less(name, m[0].0) {
      assert r[1..] == m;
    } else {
      InsertNames(m[1..], name, value);
      assert r == [m[0]] + Insert(m[1..], name, value);
      assert m == [m[0]] + m[1..];
      NamesCons(m[0], m[1..]);
      NamesCons(m[0], Insert(m[1..], name, value));
    }
  }

  /** Inserting a lower-case name keeps every name lower case and every group non-empty. */
  lemma {:induction false} InsertEntries(m: HeaderMultimap, name: string, value: string)
    requires forall p :: p in m ==> Lower(p.0) == p.0 && p.1 != []
    requires Lower(name) == name
    ensures forall p :: p in Insert(m, name, value) ==> Lower(p.0) == p.0 && p.1 != []
  {
    var r := Insert(m, name, value);
    if m == [] {
    } else if m[0].0 == name {
      assert forall p :: p in r ==> p == r[0] || p in m[1..];
    } else if Less(name, m[0].0) {
      assert r[1..] == m;
    } else {
      assert forall p :: p in m[1..] ==> p in m;
      InsertEntries(m[1..], name, value);
      assert forall p :: p in r ==> p == m[0] || p in Insert(m[1..], name, value);
    }
  }

  /** In a sorted map, every name after the first is above the first. */
  lemma AboveFirst(m: HeaderMultimap, x: string)
    requires Sorted(m) && m != [] && x in Names(m[1..])
    ensures Less(m[0].0, x)
  {
    var q :| q in m[1..] && q.0 == x;
    var k :| 0 <= k < |m[1..]| && m[1..][k] == q;
    assert m[k + 1] == q;
  }

  /** Inserting keeps the names in increasing order. */
  lemma {:induction false} InsertSorted(m: HeaderMultimap, name: string, value: string)
    requires Sorted(m)
    ensures Sorted(Insert(m, name, value))
  {
    var r := Insert(m, name, value);
    if m == [] {
    } else if m[0].0 == name {
      assert forall i :: 0 <= i < |r| ==> r[i].0 == m[i].0;
    } else if Less(name, m[0].0) {
      InsertSortedFront(m, name, value);
    } else {
      InsertSorted(m[1..], name, value);
      InsertSortedBehind(m, name, value);
    }
  }

  /** A name below the first one goes in front. */
  lemma InsertSortedFront(m: HeaderMultimap, name: string, value: string)
    requires Sorted(m) && m != [] && Less(name, m[0].0)
    ensures Sorted([(name, [value])] + m)
  {
    var r := [(name, [value])] + m;
    forall i, j | 0 <= i < j < |r| ensures Less(r[i].0, r[j].0) {
      if i == 0 && j > 1 {
        LessTransitive(name, m[0].0, m[j - 1].0);
      } else if i > 0 {
        assert r[i] == m[i - 1] && r[j] == m[j - 1];
      }
    }
  }

  /** A name above the first one goes into the rest, behind the first entry. */
  lemma InsertBehind(m: HeaderMultimap, name: string, value: string)
    requires m != [] && m[0].0 != name && !Less(name, m[0].0)
    ensures Insert(m, name, value) == [m[0]] + Insert(m[1..], name, value)
  {
  }

  /** Every name of the rest, after inserting there, is above the first name. */
  lemma InsertedAboveFirst(m: HeaderMultimap, name: string, value: string)
    requires Sorted(m) && m != [] && m[0].0 != name && !Less(name, m[0].0)
    ensures forall x :: x in Names(Insert(m[1..], name, value)) ==> Less(m[0].0, x)
  {
    InsertNames(m[1..], name, value);
    LessTotal(name, m[0].0);
    forall x | x in Names(Insert(m[1..], name, value)) ensures Less(m[0].0, x) {
      if x != name {
        AboveFirst(m, x);
      }
    }
  }

  /** Behind the first entry, the order of the rest carries over to the whole. */
  lemma InsertSortedBehind(m: HeaderMultimap, name: string, value: string)
    requires Sorted(m) && m != [] && m[0].0 != name && !Less(name, m[0].0)
    requires Sorted(Insert(m[1..], name, value))
    ensures Sorted(Insert(m, name, value))
  {
    var r := Insert(m, name, value);
    var rt := Insert(m[1..], name, value);
    InsertBehind(m, name, value);
    InsertedAboveFirst(m, name, value);
    forall i, j | 0 <= i < j < |r| ensures Less(r[i].0, r[j].0) {
      assert r[j] == rt[j - 1];
      if i > 0 {
        assert r[i] == rt[i - 1];
      } else {
        assert rt[j - 1] in rt;
        assert r[j].0 in Names(rt);
      }
    }
  }

  /** Inserting keeps the map well formed. */
  lemma InsertWellFormed(m: HeaderMultimap, name: string, value: string)
    requires WellFormed(m) && Lower(name) == name
    ensures WellFormed(Insert(m, name, value))
  {
    InsertSorted(m, name, value);
    InsertEntries(m, name, value);
  }

  /** Inserting appends `value` to the group of `name` and leaves the other groups alone. */
  lemma {:induction false} InsertValues(m: HeaderMultimap, name: string, value: string, k: string)
    requires Sorted(m)
    ensures Values(Insert(m, name, value), k) == Values(m, k) + (if k == name then [value] else [])
  {
    if m == [] {
    } else if m[0].0 == name {
      if k == name {
        assert Sorted(m[1..]);
        forall p | p in m[1..] ensures p.0 != name {
          var j :| 0 <= j < |m[1..]| && m[1..][j] == p;
          assert Less(m[0].0, m[j + 1].0);
          LessIrreflexive(name);
        }
        ValuesAbsent(m[1..], k);
      }
    } else if Less(name, m[0].0) {
      if k == name {
        BelowFirstAbsent(m, name);
        ValuesAbsent(m, name);
      }
    } else {
      InsertValues(m[1..], name, value, k);
    }
  }

  /**
   * `toMultimap` yields a well-formed map whose names are the lower-cased
   * received names and whose group for a name holds that name's values in
   * the order they were received.
   */
  lemma ToMultimapSpec(raw: seq<(string, string)>)
    ensures WellFormed(ToMultimap(raw))
    ensures Names(ToMultimap(raw)) == set i | 0 <= i < |raw| :: Lower(raw[i].0)
    ensures forall name :: Values(ToMultimap(raw), name) == ValuesNamed(raw, name)
  {
    ToMultimapWellFormed(raw);
    ToMultimapNames(raw);
    forall name ensures Values(ToMultimap(raw), name) == ValuesNamed(raw, name) {
      ToMultimapValues(raw, name);
    }
  }

  lemma {:induction false} ToMultimapWellFormed(raw: seq<(string, string)>)
    ensures WellFormed(ToMultimap(raw))
  {
    if raw != [] {
      var n := |raw| - 1;
      ToMultimapWellFormed(raw[..n]);
      LowerIdempotent(raw[n].0);
      InsertWellFormed(ToMultimap(raw[..n]), Lower(raw[n].0), raw[n].1);
    }
  }

  lemma {:induction false} ToMultimapNames(raw: seq<(string, string)>)
    ensures Names(ToMultimap(raw)) == set i | 0 <= i < |raw| :: Lower(raw[i].0)
  {
    if raw != [] {
      var n := |raw| - 1;
      ToMultimapNames(raw[..n]);
      InsertNames(ToMultimap(raw[..n]), Lower(raw[n].0), raw[n].1);
      ReceivedNamesSnoc(raw);
    }
  }

  /** The lower-cased names of all pairs: those of all but the last, and the last one's. */
  lemma ReceivedNamesSnoc(raw: seq<(string, string)>)
    requires raw != []
    ensures var n := |raw| - 1;
            (set i | 0 <= i < |raw| :: Lower(raw[i].0))
            == (set i | 0 <= i < n :: Lower(raw[..n][i].0)) + {Lower(raw[n].0)}
  {
    var n := |raw| - 1;
    var before := set i | 0 <= i < n :: Lower(raw[..n][i].0);
    var after := set i | 0 <= i < |raw| :: Lower(raw[i].0);
    forall x | x in after ensures x in before + {Lower(raw[n].0)} {
      var i :| 0 <= i < |raw| && x == Lower(raw[i].0);
      if i < n {
        assert raw[..n][i] == raw[i];
      }
    }
    forall x | x in before ensures x in after {
      var i :| 0 <= i < n && x == Lower(raw[..n][i].0);
      assert raw[..n][i] == raw[i];
    }
  }

  lemma {:induction false} ToMultimapValues(raw: seq<(string, string)>, name: string)
    ensures Values(ToMultimap(raw), name) == ValuesNamed(raw, name)
  {
    if raw != [] {
      var n := |raw| - 1;
      ToMultimapValues(raw[..n], name);
      ToMultimapWellFormed(raw[..n]);
      InsertValues(ToMultimap(raw[..n]), Lower(raw[n].0), raw[n].1, name);
    }
  }

  /** No received name lower-cases to `name`: no values. */
  lemma {:induction false} ValuesNamedNone(raw: seq<(string, string)>, name: string)
    requires forall i :: 0 <= i < |raw| ==> Lower(raw[i].0) != name
    ensures ValuesNamed(raw, name) == []
  {
    if raw != [] {
      var n := |raw| - 1;
      assert forall i :: 0 <= i < n ==> raw[..n][i] == raw[i];
      ValuesNamedNone(raw[..n], name);
    }
  }

  /** A value received under `raw[i].0` is among the values `ValuesNamed` collects for its lower-cased name. */
  lemma {:induction false} ValuesNamedHas(raw: seq<(string, string)>, i: int)
    requires 0 <= i < |raw|
    ensures raw[i].1 in ValuesNamed(raw, Lower(raw[i].0))
  {
    var n := |raw| - 1;
    if i < n {
      assert raw[..n][i] == raw[i];
      ValuesNamedHas(raw[..n], i);
    }
  }

  /** Non-empty values come from a group of the map stored under exactly that name. */
  lemma {:induction false} ValuesFromGroup(m: HeaderMultimap, name: string)
    requires Values(m, name) != []
    ensures exists k :: 0 <= k < |m| && m[k].0 == name && m[k].1 == Values(m, name)
  {
    if m[0].0 != name {
      ValuesFromGroup(m[1..], name);
      var k :| 0 <= k < |m[1..]| && m[1..][k].0 == name && m[1..][k].1 == Values(m, name);
      assert m[k + 1] == m[1..][k];
    }
  }

  /** `headers[key]` in the case-insensitive map: the group whose name equals `key` ignoring case. */
  function Get(m: HeaderMultimap, key: string): Option<seq<string>> {
    if m == [] then None
    else if Lower(m[0].0) == Lower(key) then Some(m[0].1)
    else Get(m[1..], key)
  }

  /** On lower-case names, the case-insensitive lookup is the exact lookup of the lower-cased key. */
  lemma {:induction false} GetLowerCase(m: HeaderMultimap, key: string)
    requires forall p :: p in m ==> Lower(p.0) == p.0
    ensures Get(m, key).None? <==> Lower(key) !in Names(m)
    ensures Get(m, key).Some? ==> Get(m, key).value == Values(m, Lower(key))
  {
    if m != [] {
      assert m[0] in m;
      assert forall p :: p in m[1..] ==> p in m;
      assert forall p :: p in m ==> p == m[0] || p in m[1..];
      GetLowerCase(m[1..], key);
    }
  }

  /**
   * What a lookup finds in a received response: the values received under
   * any capitalisation of `key`, in the order they arrived, or nothing when
   * no such header arrived.
   */
  lemma ReceivedLookup(raw: seq<(string, string)>, key: string)
    ensures Get(ToMultimap(raw), key).None? <==> forall i :: 0 <= i < |raw| ==> Lower(raw[i].0) != Lower(key)
    ensures Get(ToMultimap(raw), key).Some? ==> Get(ToMultimap(raw), key).value == ValuesNamed(raw, Lower(key))
  {
    ToMultimapSpec(raw);
    GetLowerCase(ToMultimap(raw), key);
  }

  /** Two headers that differ only in the case of their names land in one lower-case group. */
  lemma MergedGroupExample()
    ensures ToMultimap([("Set-Cookie", "a=1"), ("set-cookie", "b=2")]) == [("set-cookie", ["a=1", "b=2"])]
  {
    var raw := [("Set-Cookie", "a=1"), ("set-cookie", "b=2")];
    assert Lower("Set-Cookie") == "set-cookie";
    assert Lower("set-cookie") == "set-cookie";
    assert raw[..1] == [("Set-Cookie", "a=1")];
    assert raw[..1][..0] == [];
    assert ToMultimap(raw[..1]) == [("set-cookie", ["a=1"])];
    assert ["a=1"] + ["b=2"] == ["a=1", "b=2"];
    assert Insert([("set-cookie", ["a=1"])], "set-cookie", "b=2") == [("set-cookie", ["a=1", "b=2"])];
  }
}
