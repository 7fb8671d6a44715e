/**
 * How the dictionary-scan plugin orders its wordlists before a run
 * (`_load_wordlists` in quickdic_throttled.py): the `.txt` files of the wordlist
 * folder, the configured priority files first in directory-listing order, then
 * the rest from the smallest file to the largest, equal sizes in listing order.
 */
module Wordlists {
  import opened Optional
  import opened Strings
  import opened Sorting

  /** A directory entry: its name as `os.listdir` gives it and its size in bytes. */
  datatype WordlistFile = WordlistFile(name: string, bytes: nat)

  function Bytes(f: WordlistFile): int { f.bytes }

  function Names(files: seq<WordlistFile>): (r: seq<string>)
    ensures |r| == |files| && forall i :: 0 <= i < |files| ==> r[i] == files[i].name
  {
    seq(|files|, i requires 0 <= i < |files| => files[i].name)
  }

  /** Removing the entry at `j` removes one copy of it. */
  lemma MultisetRemove(b: seq<WordlistFile>, j: nat)
    requires j < |b|
    ensures multiset(b[..j] + b[j + 1..]) == multiset(b) - multiset{b[j]}
  {
    assert b == b[..j] + [b[j]] + b[j + 1..];
  }

  /** Removing the entry at `j` removes one copy of its name. */
  lemma NamesRemove(b: seq<WordlistFile>, j: nat)
    requires j < |b|
    ensures multiset(Names(b)) == multiset(Names(b[..j] + b[j + 1..])) + multiset{b[j].name}
  {
    var nb, nr := Names(b), Names(b[..j] + b[j + 1..]);
    assert nb == nb[..j] + [nb[j]] + nb[j + 1..];
    assert nr == nb[..j] + nb[j + 1..];
  }

  /** Entries that are a reordering of each other have names that are a reordering of each other. */
  lemma {:induction false} NamesPermutation(a: seq<WordlistFile>, b: seq<WordlistFile>)
    requires multiset(a) == multiset(b)
    ensures multiset(Names(a)) == multiset(Names(b))
    decreases |a|
  {
    if a == [] {
      assert |b| == |multiset(b)| == 0;
    } else {
      var x := a[0];
      assert x in b by {
        assert x in multiset(a);
      }
      var j :| 0 <= j < |b| && b[j] == x;
      var restA, restB := a[..0] + a[1..], b[..j] + b[j + 1..];
      MultisetRemove(a, 0);
      MultisetRemove(b, j);
      NamesPermutation(restA, restB);
      NamesStep(a, b, j);
    }
  }

  /** The names of two sequences agree once the same entry is put back into both. */
  lemma NamesStep(a: seq<WordlistFile>, b: seq<WordlistFile>, j: nat)
    requires 0 < |a| && j < |b| && b[j] == a[0]
    requires multiset(Names(a[..0] + a[1..])) == multiset(Names(b[..j] + b[j + 1..]))
    ensures multiset(Names(a)) == multiset(Names(b))
  {
    NamesRemove(a, 0);
    NamesRemove(b, j);
  }

  /** The entries whose name ends with `.txt`, in listing order. */
  function TxtFiles(listing: seq<WordlistFile>): (r: seq<WordlistFile>)
    ensures forall f :: f in r ==> f in listing && EndsWith(f.name, ".txt")
    ensures forall f :: f in listing && EndsWith(f.name, ".txt") ==> f in r
  {
    if listing == [] then []
    else (if EndsWith(listing[0].name, ".txt") then [listing[0]] else []) + TxtFiles(listing[1..])
  }

  /** The entries named in the priority set, in listing order. */
  function PriorityFiles(files: seq<WordlistFile>, priority: set<string>): (r: seq<WordlistFile>)
    ensures forall f :: f in r ==> f in files && f.name in priority
  {
    if files == [] then []
    else (if files[0].name in priority then [files[0]] else []) + PriorityFiles(files[1..], priority)
  }

  /** The entries not named in the priority set, in listing order. */
  function OtherFiles(files: seq<WordlistFile>, priority: set<string>): (r: seq<WordlistFile>)
    ensures forall f :: f in r ==> f in files && f.name !in priority
  {
    if files == [] then []
    else (if files[0].name !in priority then [files[0]] else []) + OtherFiles(files[1..], priority)
  }

  /** The wordlists in the order a run tries them, as entries. */
  function OrderedFiles(listing: seq<WordlistFile>, priority: set<string>): seq<WordlistFile> {
    var txt := TxtFiles(listing);
    PriorityFiles(txt, priority) + SortBy(OtherFiles(txt, priority), Bytes)
  }

  /**
   * `_load_wordlists`: `None` stands for a folder that cannot be listed, or for
   * `getsize` raising on one of its `.txt` files inside the `try`; either way
   * the plugin is left with no wordlists. Otherwise every `.txt` file is in the
   * run order exactly once per listing entry, and nothing else is.
   */
  function OrderedWordlists(listing: Option<seq<WordlistFile>>, priority: seq<string>): (r: seq<string>)
    ensures listing.None? ==> r == []
    ensures listing.Some? ==> |r| == |TxtFiles(listing.value)|
    ensures listing.Some? ==> forall i :: 0 <= i < |r| ==> EndsWith(r[i], ".txt")
    ensures listing.Some? ==> multiset(r) == multiset(Names(TxtFiles(listing.value)))
  {
    match listing
    case None => []
    case Some(l) =>
      OrderedNames(l, set n | n in priority);
      Names(OrderedFiles(l, set n | n in priority))
  }

  /** The names of the run order: a reordering of the names of the listed `.txt` files. */
  lemma OrderedNames(listing: seq<WordlistFile>, priority: set<string>)
    ensures var r := Names(OrderedFiles(listing, priority));
            && |r| == |TxtFiles(listing)|
            && (forall i :: 0 <= i < |r| ==> EndsWith(r[i], ".txt"))
            && multiset(r) == multiset(Names(TxtFiles(listing)))
  {
    var files := OrderedFiles(listing, priority);
    OrderedIsPermutation(listing, priority);
    assert |multiset(files)| == |multiset(TxtFiles(listing))|;
    OrderedAreListedTxt(listing, priority);
    assert forall i :: 0 <= i < |files| ==> files[i] in files;
    NamesPermutation(files, TxtFiles(listing));
  }

  /** Splitting on priority membership loses and invents nothing. */
  lemma {:induction false} PartitionIsPermutation(files: seq<WordlistFile>, priority: set<string>)
    ensures multiset(PriorityFiles(files, priority)) + multiset(OtherFiles(files, priority))
            == multiset(files)
  {
    if files != [] {
      PartitionIsPermutation(files[1..], priority);
      assert files == [files[0]] + files[1..];
    }
  }

  /** The run order uses every `.txt` file of the listing exactly as often as it is listed. */
  lemma OrderedIsPermutation(listing: seq<WordlistFile>, priority: set<string>)
    ensures multiset(OrderedFiles(listing, priority)) == multiset(TxtFiles(listing))
  {
    PartitionIsPermutation(TxtFiles(listing), priority);
  }

  /**
   * The shape of the run order: the priority files come first, in listing order;
   * after them come the other files, sorted by byte size, smallest first; files
   * of equal size keep their listing order.
   */
  lemma OrderedShape(listing: seq<WordlistFile>, priority: set<string>)
    ensures var r := OrderedFiles(listing, priority);
            var txt := TxtFiles(listing);
            var k := |PriorityFiles(txt, priority)|;
            && k <= |r|
            && r[..k] == PriorityFiles(txt, priority)
            && (forall i :: 0 <= i < k ==> r[i].name in priority)
            && (forall i :: k <= i < |r| ==> r[i].name !in priority)
            && SortedBy(r[k..], Bytes)
            && (forall v :: KeyClass(r[k..], Bytes, v) == KeyClass(OtherFiles(txt, priority), Bytes, v))
  {
    var txt := TxtFiles(listing);
    var p := PriorityFiles(txt, priority);
    var o := OtherFiles(txt, priority);
    var r := OrderedFiles(listing, priority);
    assert r[..|p|] == p && r[|p|..] == SortBy(o, Bytes);
    forall i | |p| <= i < |r|
      ensures r[i].name !in priority
    {
      assert r[i] in multiset(SortBy(o, Bytes));
    }
    forall i | 0 <= i < |p|
      ensures r[i].name in priority
    {
      assert r[i] in p;
    }
    forall v
      ensures KeyClass(r[|p|..], Bytes, v) == KeyClass(o, Bytes, v)
    {
      SortByStable(o, Bytes, v);
    }
  }

  /** Every name in the run order is a `.txt` file of the listing. */
  lemma OrderedAreListedTxt(listing: seq<WordlistFile>, priority: set<string>)
    ensures forall f :: f in OrderedFiles(listing, priority) ==> f in listing && EndsWith(f.name, ".txt")
  {
    OrderedIsPermutation(listing, priority);
    forall f | f in OrderedFiles(listing, priority)
      ensures f in listing && EndsWith(f.name, ".txt")
    {
      assert f in multiset(TxtFiles(listing));
    }
  }

  /**
   * The configured order of the priority list plays no part: with the priority
   * list `[b.txt, a.txt]` and the listing `[a.txt, b.txt]`, `a.txt` is tried first.
   */
  lemma PriorityKeepsListingOrder()
    ensures OrderedWordlists(Some([WordlistFile("a.txt", 9), WordlistFile("b.txt", 1)]),
                          ["b.txt", "a.txt"]) == ["a.txt", "b.txt"]
  {
    var a, b := WordlistFile("a.txt", 9), WordlistFile("b.txt", 1);
    var prio := set n | n in ["b.txt", "a.txt"];
    assert "a.txt" in prio && "b.txt" in prio;
    assert EndsWith(a.name, ".txt") && EndsWith(b.name, ".txt");
    var listing := [a, b];
    assert listing[1..] == [b];
    assert TxtFiles([b]) == [b];
    assert TxtFiles(listing) == [a, b];
    assert PriorityFiles([b], prio) == [b];
    assert PriorityFiles([a, b], prio) == [a, b];
    assert OtherFiles([b], prio) == [];
    assert OtherFiles([a, b], prio) == [];
  }
}
