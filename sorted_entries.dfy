/** The abstract view of a sorted hash table: its entries in sorted-list order, and
    what set, get and the two print functions do to and with that sequence. */
module SortedEntries {
  import opened StringOrder

  /** A C pointer that may be NULL: absent, or present with a value. */
  datatype Option<T> = None | Some(value: T)

  /** One key/value pair of the table. */
  datatype Entry = Entry(key: string, value: string)

  /** Keys strictly ascending, every pair of positions compared. */
  predicate Ascending(s: seq<Entry>) {
    forall i, j :: 0 <= i < j < |s| ==> Less(s[i].key, s[j].key)
  }

  /** The value of the first entry whose key is `k`, if any. */
  function Find(s: seq<Entry>, k: string): (r: Option<string>)
    ensures r.None? <==> forall i :: 0 <= i < |s| ==> s[i].key != k
    ensures r.Some? ==> exists i :: 0 <= i < |s| && s[i] == Entry(k, r.value)
  {
    if s == [] then None
    else if s[0].key == k then Some(s[0].value)
    else
      var r := Find(s[1..], k);
      assert forall i :: 0 < i < |s| ==> s[i] == s[1..][i - 1];
      r
  }

  /** Searching a concatenation searches the front part first. */
  lemma {:induction false} FindConcat(a: seq<Entry>, b: seq<Entry>, k: string)
    ensures Find(a + b, k) == if Find(a, k).Some? then Find(a, k) else Find(b, k)
  {
    if a != [] {
      assert (a + b)[0] == a[0];
      assert (a + b)[1..] == a[1..] + b;
      FindConcat(a[1..], b, k);
    } else {
      assert a + b == b;
    }
  }

  /** In an ascending sequence every entry is the one found under its key. */
  lemma {:induction false} FindAt(s: seq<Entry>, j: nat)
    requires Ascending(s) && j < |s|
    ensures Find(s, s[j].key) == Some(s[j].value)
  {
    if j > 0 {
      assert Less(s[0].key, s[j].key);
      assert s[1..][j - 1] == s[j];
      FindAt(s[1..], j - 1);
    }
  }

  /** Where the scan of insert_sorted stops for key `k`: the number of leading
      entries whose key sorts strictly before `k`. */
  function Position(s: seq<Entry>, k: string): (p: nat)
    ensures p <= |s|
    ensures forall q :: 0 <= q < p ==> Less(s[q].key, k)
    ensures p < |s| ==> !Less(s[p].key, k)
  {
    if s == [] || !Less(s[0].key, k) then 0
    else
      var p := 1 + Position(s[1..], k);
      assert forall q :: 0 < q < |s| ==> s[q] == s[1..][q - 1];
      p
  }

  /** Any index with the two properties of the scan's stopping point is that point. */
  lemma PositionUnique(s: seq<Entry>, k: string, p: nat)
    requires p <= |s|
    requires forall q :: 0 <= q < p ==> Less(s[q].key, k)
    requires p < |s| ==> !Less(s[p].key, k)
    ensures p == Position(s, k)
  {
  }

  /** `s` with `e` placed before the first entry whose key does not sort before `e.key`. */
  function Splice(s: seq<Entry>, e: Entry): (r: seq<Entry>)
    ensures |r| == |s| + 1
    ensures r[Position(s, e.key)] == e
    ensures forall i :: 0 <= i < Position(s, e.key) ==> Less(r[i].key, e.key)
  {
    var p := Position(s, e.key);
    s[..p] + [e] + s[p..]
  }

  /** Every key from the scan's stopping point on sorts after a fresh key. */
  lemma AfterPosition(s: seq<Entry>, k: string)
    requires Ascending(s) && Find(s, k).None?
    ensures forall q :: Position(s, k) <= q < |s| ==> Less(k, s[q].key)
  {
    var p := Position(s, k);
    forall q | p <= q < |s|
      ensures Less(k, s[q].key)
    {
      LessTotal(s[p].key, k);
      if q > p {
        LessTransitive(k, s[p].key, s[q].key);
      }
    }
  }

  /** Placing `e` at index `p`, between the keys below and above it, keeps a
      sequence ascending. */
  lemma InsertAscending(s: seq<Entry>, e: Entry, p: nat)
    requires Ascending(s) && p <= |s|
    requires forall q :: 0 <= q < p ==> Less(s[q].key, e.key)
    requires forall q :: p <= q < |s| ==> Less(e.key, s[q].key)
    ensures Ascending(s[..p] + [e] + s[p..])
  {
    var r := s[..p] + [e] + s[p..];
    assert forall i :: 0 <= i < p ==> r[i] == s[i];
    assert r[p] == e;
    assert forall i :: p < i < |r| ==> r[i] == s[i - 1];
    forall i, j | 0 <= i < j < |r|
      ensures Less(r[i].key, r[j].key)
    {
      if j < p {
      } else if j == p {
      } else if i < p {
        assert Less(s[i].key, s[j - 1].key);
      } else if i == p {
      } else {
        assert Less(s[i - 1].key, s[j - 1].key);
      }
    }
  }

  /** Splicing adds exactly the one entry. */
  lemma SpliceMultiset(s: seq<Entry>, e: Entry)
    ensures |Splice(s, e)| == |s| + 1
    ensures multiset(Splice(s, e)) == multiset(s) + multiset{e}
  {
    var p := Position(s, e.key);
    assert s == s[..p] + s[p..];
  }

  /** Splicing a fresh key into an ascending sequence keeps it ascending and adds
      exactly that one entry. */
  lemma SpliceAscending(s: seq<Entry>, e: Entry)
    requires Ascending(s) && Find(s, e.key).None?
    ensures Ascending(Splice(s, e))
    ensures |Splice(s, e)| == |s| + 1
    ensures multiset(Splice(s, e)) == multiset(s) + multiset{e}
  {
    AfterPosition(s, e.key);
    InsertAscending(s, e, Position(s, e.key));
    SpliceMultiset(s, e);
  }

  /** After splicing a fresh entry, its key finds its value and every other key
      finds what it found before. */
  lemma FindSplice(s: seq<Entry>, e: Entry, k: string)
    requires Find(s, e.key).None?
    ensures Find(Splice(s, e), k) == if k == e.key then Some(e.value) else Find(s, k)
  {
    var p := Position(s, e.key);
    assert Splice(s, e) == s[..p] + ([e] + s[p..]);
    FindConcat(s[..p], [e] + s[p..], k);
    assert ([e] + s[p..])[1..] == s[p..];
    assert s == s[..p] + s[p..];
    FindConcat(s[..p], s[p..], k);
  }

  /** Every entry with key `k` now holds `v`; keys and positions are unchanged. */
  function Update(s: seq<Entry>, k: string, v: string): (r: seq<Entry>)
    ensures |r| == |s|
    ensures forall i :: 0 <= i < |s| ==> r[i].key == s[i].key
    ensures forall i :: 0 <= i < |s| && s[i].key == k ==> r[i].value == v
  {
    seq(|s|, i requires 0 <= i < |s| => if s[i].key == k then Entry(k, v) else s[i])
  }

  /** Updating an existing key changes what that key finds and nothing else. */
  lemma FindUpdate(s: seq<Entry>, k: string, v: string, k2: string)
    requires Ascending(s) && Find(s, k).Some?
    ensures Ascending(Update(s, k, v))
    ensures Find(Update(s, k, v), k2) == if k2 == k then Some(v) else Find(s, k2)
  {
    var u := Update(s, k, v);
    assert forall i :: 0 <= i < |s| ==> u[i].key == s[i].key;
    assert Ascending(u) by {
      forall i, j | 0 <= i < j < |u|
        ensures Less(u[i].key, u[j].key)
      {
        assert u[i].key == s[i].key && u[j].key == s[j].key;
      }
    }
    if k2 == k {
      var j :| 0 <= j < |s| && s[j] == Entry(k, Find(s, k).value);
      assert u[j] == Entry(k, v);
      FindAt(u, j);
    } else if Find(s, k2).Some? {
      var i :| 0 <= i < |s| && s[i] == Entry(k2, Find(s, k2).value);
      assert u[i] == s[i];
      FindAt(u, i);
    } else {
      assert forall i :: 0 <= i < |u| ==> u[i].key != k2;
    }
  }

  /** The abstract effect of a successful shash_table_set(k, v). */
  function Put(s: seq<Entry>, k: string, v: string): (r: seq<Entry>)
    ensures |r| == if Find(s, k).Some? then |s| else |s| + 1
  {
    if Find(s, k).Some? then Update(s, k, v) else Splice(s, Entry(k, v))
  }

  /** set keeps the order strictly ascending, adds an entry only for a new key,
      and afterwards `k` finds `v` while every other key is unaffected. */
  lemma PutSpec(s: seq<Entry>, k: string, v: string, k2: string)
    requires Ascending(s)
    ensures Ascending(Put(s, k, v))
    ensures |Put(s, k, v)| == if Find(s, k).Some? then |s| else |s| + 1
    ensures Find(Put(s, k, v), k2) == if k2 == k then Some(v) else Find(s, k2)
  {
    if Find(s, k).Some? {
      FindUpdate(s, k, v, k2);
    } else {
      SpliceAscending(s, Entry(k, v));
      FindSplice(s, Entry(k, v), k2);
    }
  }

  /** Setting a key that is already present leaves every key at its position. */
  lemma PutExistingKeepsOrder(s: seq<Entry>, k: string, v: string)
    requires Find(s, k).Some?
    ensures |Put(s, k, v)| == |s|
    ensures forall i :: 0 <= i < |s| ==> Put(s, k, v)[i].key == s[i].key
    ensures forall i :: 0 <= i < |s| && s[i].key != k ==> Put(s, k, v)[i] == s[i]
  {
  }

  /** The table built by a sequence of successful set calls, from an empty table. */
  function Replay(ops: seq<Entry>): seq<Entry> {
    if ops == [] then []
    else
      var last := ops[|ops| - 1];
      Put(Replay(ops[..|ops| - 1]), last.key, last.value)
  }

  /** The value of the latest call in `ops` that set key `k`. */
  function LastWrite(ops: seq<Entry>, k: string): Option<string> {
    if ops == [] then None
    else if ops[|ops| - 1].key == k then Some(ops[|ops| - 1].value)
    else LastWrite(ops[..|ops| - 1], k)
  }

  /** After any sequence of set calls the order is ascending and every key finds
      the value of the most recent set of that key. */
  lemma {:induction false} ReplayFind(ops: seq<Entry>, k: string)
    ensures Ascending(Replay(ops))
    ensures Find(Replay(ops), k) == LastWrite(ops, k)
  {
    if ops != [] {
      var last := ops[|ops| - 1];
      ReplayFind(ops[..|ops| - 1], k);
      PutSpec(Replay(ops[..|ops| - 1]), last.key, last.value, k);
    }
  }

  /** One pair as printed: 'key': 'value'. */
  function Pair(e: Entry): (r: string)
    ensures |r| == |e.key| + |e.value| + 6
  {
    "'" + e.key + "': '" + e.value + "'"
  }

  /** The pairs of `s` in order, separated by ", ". */
  function Joined(s: seq<Entry>): (r: string)
    ensures r == [] <==> s == []
  {
    if s == [] then ""
    else if |s| == 1 then Pair(s[0])
    else Joined(s[..|s| - 1]) + ", " + Pair(s[|s| - 1])
  }

  /** What the print functions write for the entries `s`. */
  function Format(s: seq<Entry>): (r: string)
    ensures r == "{}\n" <==> s == []
  {
    "{" + Joined(s) + "}\n"
  }

  /** Concatenation of strings is associative. */
  lemma AppendAssoc(a: string, b: string, c: string)
    ensures a + b + c == a + (b + c)
  {
  }

  /** Read from the front, the pairs are the first pair, a separator and the rest. */
  lemma {:induction false} JoinedCons(e: Entry, s: seq<Entry>)
    requires s != []
    ensures Joined([e] + s) == Pair(e) + ", " + Joined(s)
    decreases |s|
  {
    var t := [e] + s;
    if |s| > 1 {
      var s', last := s[..|s| - 1], s[|s| - 1];
      assert t[..|t| - 1] == [e] + s' && t[|t| - 1] == last;
      JoinedCons(e, s');
      calc {
        Joined(t);
        Joined([e] + s') + ", " + Pair(last);
        Pair(e) + ", " + Joined(s') + ", " + Pair(last);
        { AppendAssoc(Pair(e) + ", ", Joined(s'), ", " + Pair(last)); }
        Pair(e) + ", " + (Joined(s') + ", " + Pair(last));
        Pair(e) + ", " + Joined(s);
      }
    } else {
      assert t[..|t| - 1] == [e];
    }
  }

  /** The entries in the opposite order. */
  function Reverse(s: seq<Entry>): (r: seq<Entry>)
    ensures |r| == |s|
    ensures forall i :: 0 <= i < |s| ==> r[i] == s[|s| - 1 - i]
  {
    if s == [] then [] else [s[|s| - 1]] + Reverse(s[..|s| - 1])
  }

  /** Reversing an ascending sequence gives a strictly descending one. */
  lemma ReverseDescending(s: seq<Entry>)
    requires Ascending(s)
    ensures forall i, j :: 0 <= i < j < |s| ==> Less(Reverse(s)[j].key, Reverse(s)[i].key)
  {
  }

  /** Reversing twice gives back the original order. */
  lemma ReverseReverse(s: seq<Entry>)
    ensures Reverse(Reverse(s)) == s
  {
  }

  /** Three sets of keys in ascending order build the table a, b, c. */
  lemma ReplayAscending()
    ensures Replay([Entry("a", "1"), Entry("b", "2"), Entry("c", "3")])
         == [Entry("a", "1"), Entry("b", "2"), Entry("c", "3")]
  {
    var ops := [Entry("a", "1"), Entry("b", "2"), Entry("c", "3")];
    assert Less("a", "b") && Less("a", "c") && Less("b", "c");
    assert ops[..1][..0] == [];
    assert Replay(ops[..1]) == [Entry("a", "1")];
    assert ops[..2][..1] == ops[..1];
    assert Replay(ops[..2]) == [Entry("a", "1"), Entry("b", "2")];
    assert ops[..3][..2] == ops[..2];
  }

  /** Setting "a" again keeps it first and changes only its value. */
  lemma ReplayOverwrite()
    ensures Replay([Entry("a", "1"), Entry("b", "2"), Entry("c", "3"), Entry("a", "9")])
         == [Entry("a", "9"), Entry("b", "2"), Entry("c", "3")]
  {
    var ops := [Entry("a", "1"), Entry("b", "2"), Entry("c", "3"), Entry("a", "9")];
    assert ops[..3] == [Entry("a", "1"), Entry("b", "2"), Entry("c", "3")];
    ReplayAscending();
  }

  /** The pairs of a three-entry sequence. */
  lemma JoinedThree(x: Entry, y: Entry, z: Entry)
    ensures Joined([x, y, z]) == Pair(x) + ", " + Pair(y) + ", " + Pair(z)
  {
    assert [x, y][..1] == [x];
    assert Joined([x, y]) == Pair(x) + ", " + Pair(y);
    assert [x, y, z][..2] == [x, y];
  }

  /** The text printed for three entries whose keys and values are single
      characters. */
  lemma PrintThree(k1: char, v1: char, k2: char, v2: char, k3: char, v3: char)
    ensures Format([Entry([k1], [v1]), Entry([k2], [v2]), Entry([k3], [v3])])
         == ['{', '\'', k1, '\'', ':', ' ', '\'', v1, '\'', ',', ' ',
             '\'', k2, '\'', ':', ' ', '\'', v2, '\'', ',', ' ',
             '\'', k3, '\'', ':', ' ', '\'', v3, '\'', '}', '\n']
  {
    JoinedThree(Entry([k1], [v1]), Entry([k2], [v2]), Entry([k3], [v3]));
  }

  /** A worked run: after set("a", "1"), set("b", "2"), set("c", "3"), print
      writes the pairs in ascending key order. */
  lemma PrintScenario()
    ensures Format(Replay([Entry("a", "1"), Entry("b", "2"), Entry("c", "3")]))
         == "{'a': '1', 'b': '2', 'c': '3'}\n"
  {
    ReplayAscending();
    PrintThree('a', '1', 'b', '2', 'c', '3');
  }

  /** The same run printed by print_rev: the pairs in descending key order. */
  lemma PrintRevScenario()
    ensures Format(Reverse(Replay([Entry("a", "1"), Entry("b", "2"), Entry("c", "3")])))
         == "{'c': '3', 'b': '2', 'a': '1'}\n"
  {
    ReplayAscending();
    var s := [Entry("a", "1"), Entry("b", "2"), Entry("c", "3")];
    assert Reverse(s) == [Entry("c", "3"), Entry("b", "2"), Entry("a", "1")];
    PrintThree('c', '3', 'b', '2', 'a', '1');
  }

  /** The run continued with set("a", "9"): get("a") gives "9", get("z") finds
      nothing, and print shows the new value at the old place. */
  lemma OverwriteScenario()
    ensures Find(Replay([Entry("a", "1"), Entry("b", "2"), Entry("c", "3"), Entry("a", "9")]), "a") == Some("9")
    ensures Find(Replay([Entry("a", "1"), Entry("b", "2"), Entry("c", "3"), Entry("a", "9")]), "z") == None
    ensures Format(Replay([Entry("a", "1"), Entry("b", "2"), Entry("c", "3"), Entry("a", "9")]))
         == "{'a': '9', 'b': '2', 'c': '3'}\n"
  {
    ReplayOverwrite();
    PrintThree('a', '9', 'b', '2', 'c', '3');
  }
}
