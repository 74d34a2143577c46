/** The file browser's directory listing: which entries it shows, with which
    flag, and in which order. */
module Listing {
  import opened Sorting

  /** One row of the listing: a name and whether it is a directory. */
  datatype Entry = Entry(name: string, isDir: bool)

  /** What listing the current path yields: the names os.listdir reports, and
      the subset of them for which os.path.isdir holds; or FileNotFoundError. */
  datatype DirListing = NotFound | Found(names: seq<string>, dirs: set<string>)

  /** Names starting with '.' are hidden from the browser. */
  predicate Hidden(name: string) {
    |name| > 0 && name[0] == '.'
  }

  // ---------------------------------------------------------------------------
  // Orders

  /** Python's a <= b on strings: lexicographic by code point. */
  predicate NameLE(a: string, b: string) {
    if a == [] then true
    else if b == [] then false
    else if a[0] != b[0] then a[0] < b[0]
    else NameLE(a[1..], b[1..])
  }

  lemma {:induction false} NameLETotal(a: string, b: string)
    ensures NameLE(a, b) || NameLE(b, a)
  {
    if a != [] && b != [] && a[0] == b[0] {
      NameLETotal(a[1..], b[1..]);
    }
  }

  lemma {:induction false} NameLEAntisymmetric(a: string, b: string)
    requires NameLE(a, b) && NameLE(b, a)
    ensures a == b
  {
    if a != [] && b != [] {
      NameLEAntisymmetric(a[1..], b[1..]);
      assert a == [a[0]] + a[1..] && b == [b[0]] + b[1..];
    }
  }

  lemma {:induction false} NameLETransitive(a: string, b: string, c: string)
    requires NameLE(a, b) && NameLE(b, c)
    ensures NameLE(a, c)
  {
    if a != [] && b != [] && c != [] && a[0] == b[0] && b[0] == c[0] {
      NameLETransitive(a[1..], b[1..], c[1..]);
    }
  }

  /** Python's string comparison is a total order. */
  lemma NameLEIsTotalOrder()
    ensures TotalOrder(NameLE)
  {
    forall a, b ensures NameLE(a, b) || NameLE(b, a) { NameLETotal(a, b); }
    forall a, b | NameLE(a, b) && NameLE(b, a) ensures a == b { NameLEAntisymmetric(a, b); }
    forall a, b, c | NameLE(a, b) && NameLE(b, c) ensures NameLE(a, c) { NameLETransitive(a, b, c); }
  }

  /** ASCII lower case: the result is never an ASCII capital, and every
      character that is not one is left alone. */
  function LowerChar(c: char): (r: char)
    ensures !('A' <= r <= 'Z')
    ensures !('A' <= c <= 'Z') ==> r == c
  {
    if 'A' <= c <= 'Z' then (c as int - 'A' as int + 'a' as int) as char else c
  }

  /** The name as compared by the re-sort: same length, no ASCII capitals. */
  function Lower(s: string): (r: string)
    ensures |r| == |s|
    ensures forall k :: 0 <= k < |r| ==> !('A' <= r[k] <= 'Z')
  {
    seq(|s|, i requires 0 <= i < |s| => LowerChar(s[i]))
  }

  /** The key of the re-sort: key(x) <= key(y) for key(e) = (not e.isDir,
      e.name.lower()), compared as a Python tuple (False sorts before True). */
  predicate KeyLE(x: Entry, y: Entry) {
    if x.isDir != y.isDir then x.isDir else NameLE(Lower(x.name), Lower(y.name))
  }

  /** The order of the finished listing: directories first, then lower-cased
      name, then, between names that lower-case alike, the plain name. */
  predicate ListingLE(x: Entry, y: Entry) {
    if x.isDir != y.isDir then x.isDir
    else if Lower(x.name) != Lower(y.name) then NameLE(Lower(x.name), Lower(y.name))
    else NameLE(x.name, y.name)
  }

  /** Entries compared by their plain names only. */
  predicate ByNameLE(x: Entry, y: Entry) {
    NameLE(x.name, y.name)
  }

  lemma KeyLEIsTotalPreorder()
    ensures TotalPreorder(KeyLE)
  {
    NameLEIsTotalOrder();
  }

  lemma ListingLEIsTotalOrder()
    ensures TotalOrder(ListingLE)
  {
    NameLEIsTotalOrder();
    forall x, y | ListingLE(x, y) && ListingLE(y, x) ensures x == y {
      assert x.isDir == y.isDir;
      assert Lower(x.name) == Lower(y.name);
      assert x.name == y.name;
    }
  }

  // ---------------------------------------------------------------------------
  // The filter loop

  /** The entries the loop appends for names, in that order: hidden names are
      skipped and each other name is paired with its is-directory flag. */
  function Visible(names: seq<string>, dirs: set<string>): (r: seq<Entry>)
    ensures forall k :: 0 <= k < |r| ==>
              r[k].name in names && !Hidden(r[k].name) && r[k].isDir == (r[k].name in dirs)
  {
    if names == [] then []
    else
      var last := names[|names| - 1];
      Visible(names[..|names| - 1], dirs) + if Hidden(last) then [] else [Entry(last, last in dirs)]
  }

  /** How often e belongs in the listing of names: as often as its name is
      listed, if that name is not hidden and e carries the name's own flag;
      otherwise never. */
  function Expected(names: seq<string>, dirs: set<string>, e: Entry): nat {
    if !Hidden(e.name) && e.isDir == (e.name in dirs) then multiset(names)[e.name] else 0
  }

  /** The filter loop adds and drops nothing: each entry occurs exactly as
      often as Expected says. */
  lemma {:induction false} VisibleCounts(names: seq<string>, dirs: set<string>, e: Entry)
    ensures multiset(Visible(names, dirs))[e] == Expected(names, dirs, e)
  {
    if names != [] {
      var init, last := names[..|names| - 1], names[|names| - 1];
      VisibleCounts(init, dirs, e);
      assert names == init + [last];
      assert multiset(names)[e.name] == multiset(init)[e.name] + if last == e.name then 1 else 0;
      var v := Visible(init, dirs);
      if Hidden(last) {
        assert Visible(names, dirs) == v;
      } else {
        var x := Entry(last, last in dirs);
        assert Visible(names, dirs) == v + [x];
        assert multiset(v + [x])[e] == multiset(v)[e] + if x == e then 1 else 0;
      }
    }
  }

  /** Filtering keeps the order of names sorted by sorted(...). */
  lemma {:induction false} VisibleSorted(names: seq<string>, dirs: set<string>)
    requires SortedBy(NameLE, names)
    ensures SortedBy(ByNameLE, Visible(names, dirs))
  {
    if names != [] {
      var init, last := names[..|names| - 1], names[|names| - 1];
      assert SortedBy(NameLE, init) by {
        forall i, j | 0 <= i < j < |init| ensures NameLE(init[i], init[j]) {
          assert init[i] == names[i] && init[j] == names[j];
        }
      }
      VisibleSorted(init, dirs);
      var v := Visible(init, dirs);
      forall k | 0 <= k < |v| ensures NameLE(v[k].name, last) {
        var m :| 0 <= m < |init| && init[m] == v[k].name;
        assert names[m] == init[m];
      }
    }
  }

  // ---------------------------------------------------------------------------
  // Stability of the re-sort

  lemma ListingLERefinesKeyLE(r: seq<Entry>)
    requires SortedBy(ListingLE, r)
    ensures SortedBy(KeyLE, r)
  {
    NameLEIsTotalOrder();
  }

  /** Inserting an entry whose name sorts before every name already placed
      keeps the full listing order. */
  lemma {:induction false} StableInsert(x: Entry, r: seq<Entry>)
    requires SortedBy(ListingLE, r)
    requires forall k :: 0 <= k < |r| ==> NameLE(x.name, r[k].name)
    ensures TotalPreorder(KeyLE) && SortedBy(KeyLE, r)
    ensures SortedBy(ListingLE, Insert(KeyLE, x, r))
  {
    KeyLEIsTotalPreorder();
    ListingLEIsTotalOrder();
    ListingLERefinesKeyLE(r);
    NameLEIsTotalOrder();
    if r == [] {
    } else if KeyLE(x, r[0]) {
      assert ListingLE(x, r[0]);
      forall k | 0 < k < |r| ensures ListingLE(x, r[k]) {
        assert ListingLE(r[0], r[k]);
      }
    } else {
      assert ListingLE(r[0], x);
      TailSorted(ListingLE, r);
      StableInsert(x, r[1..]);
      var t := Insert(KeyLE, x, r[1..]);
      forall k | 0 <= k < |t| ensures ListingLE(r[0], t[k]) {
        assert t[k] in multiset(t);
        if t[k] != x {
          assert t[k] in multiset(r[1..]);
          var m :| 0 <= m < |r[1..]| && r[1..][m] == t[k];
          assert r[m + 1] == t[k];
        }
      }
      assert Insert(KeyLE, x, r) == [r[0]] + t;
    }
  }

  /** Stable-sorting by KeyLE a sequence already in plain name order yields
      the full listing order: ties of the key keep plain name order. */
  lemma {:induction false} StableSort(s: seq<Entry>)
    requires SortedBy(ByNameLE, s)
    ensures TotalPreorder(KeyLE) && SortedBy(ListingLE, Sort(KeyLE, s))
  {
    KeyLEIsTotalPreorder();
    if s != [] {
      TailSorted(ByNameLE, s);
      StableSort(s[1..]);
      var r := Sort(KeyLE, s[1..]);
      forall k | 0 <= k < |r| ensures NameLE(s[0].name, r[k].name) {
        assert r[k] in multiset(s[1..]);
        var m :| 0 <= m < |s[1..]| && s[1..][m] == r[k];
        assert ByNameLE(s[0], s[m + 1]);
      }
      StableInsert(s[0], r);
    }
  }

  // ---------------------------------------------------------------------------
  // What the listing is

  /** items is the listing of names: in listing order and holding each entry
      exactly as often as Expected says. */
  ghost predicate IsListingOf(items: seq<Entry>, names: seq<string>, dirs: set<string>) {
    && SortedBy(ListingLE, items)
    && forall e :: multiset(items)[e] == Expected(names, dirs, e)
  }

  /** The listing of a directory is determined by its names and flags. */
  lemma ListingUnique(a: seq<Entry>, b: seq<Entry>, names: seq<string>, dirs: set<string>)
    requires IsListingOf(a, names, dirs) && IsListingOf(b, names, dirs)
    ensures a == b
  {
    assert multiset(a) == multiset(b) by {
      forall e ensures multiset(a)[e] == multiset(b)[e] {}
    }
    ListingLEIsTotalOrder();
    SortedUnique(ListingLE, a, b);
  }

  /** A listing shows exactly the non-hidden names, each with its own flag. */
  lemma ListingMembers(items: seq<Entry>, names: seq<string>, dirs: set<string>)
    requires IsListingOf(items, names, dirs)
    ensures forall e :: e in items <==>
              e.name in names && !Hidden(e.name) && e.isDir == (e.name in dirs)
  {
    forall e ensures e in items <==> e.name in names && !Hidden(e.name) && e.isDir == (e.name in dirs) {
      assert e in items <==> multiset(items)[e] > 0;
      assert e.name in names <==> multiset(names)[e.name] > 0;
    }
  }

  lemma RepeatedTwice<T>(s: seq<T>, i: nat, j: nat)
    requires i < j < |s| && s[i] == s[j]
    ensures multiset(s)[s[i]] >= 2
  {
    assert s == s[..j] + s[j..];
    assert s[i] in s[..j];
    assert s[j..][0] == s[j];
    assert multiset(s)[s[i]] == multiset(s[..j])[s[i]] + multiset(s[j..])[s[i]];
  }

  /** When os.listdir names each entry once, the listing shows each name once. */
  lemma ListedOnce(items: seq<Entry>, names: seq<string>, dirs: set<string>)
    requires IsListingOf(items, names, dirs)
    requires forall n :: multiset(names)[n] <= 1
    ensures forall i, j :: 0 <= i < j < |items| ==> items[i].name != items[j].name
  {
    forall i, j | 0 <= i < j < |items| ensures items[i].name != items[j].name {
      if items[i].name == items[j].name {
        var e := items[i];
        assert Expected(names, dirs, e) > 0 && Expected(names, dirs, items[j]) > 0;
        assert items[j] == e;
        RepeatedTwice(items, i, j);
      }
    }
  }

  /** What the listing order means: every directory comes before every file;
      within each group lower-cased names never decrease; and names that
      lower-case alike keep plain string order. */
  lemma ListingOrder(items: seq<Entry>)
    requires SortedBy(ListingLE, items)
    ensures forall i, j :: 0 <= i < j < |items| && items[j].isDir ==> items[i].isDir
    ensures forall i, j :: 0 <= i < j < |items| && items[i].isDir == items[j].isDir ==>
              NameLE(Lower(items[i].name), Lower(items[j].name))
    ensures forall i, j ::
              (0 <= i < j < |items| && items[i].isDir == items[j].isDir &&
               Lower(items[i].name) == Lower(items[j].name)) ==> NameLE(items[i].name, items[j].name)
  {
    NameLEIsTotalOrder();
    forall i, j | 0 <= i < j < |items| ensures ListingLE(items[i], items[j]) {}
  }
}
