/** The image directory as a value: its entries in listing order, each a
    file name and the bytes stored under it. The handlers read the listing
    front to back, so "the first file that ..." is the matching entry of
    lowest index. */
module Directory {
  import opened Wrappers

  type Byte = b: int | 0 <= b < 256
  type Bytes = seq<Byte>

  datatype Entry = Entry(name: string, bytes: Bytes)

  type Dir = seq<Entry>

  /** A real directory never lists one name twice. */
  predicate DistinctNames(d: Dir) {
    forall i, j :: 0 <= i < j < |d| ==> d[i].name != d[j].name
  }

  /** `f.startsWith(p)` for the entry's file name. */
  predicate Matches(e: Entry, p: string) {
    p <= e.name
  }

  predicate NoMatch(d: Dir, p: string) {
    forall i :: 0 <= i < |d| ==> !Matches(d[i], p)
  }

  /** `i` is where `files.find(f => f.startsWith(p))` stops. */
  predicate IsFirstMatch(d: Dir, p: string, i: int) {
    && 0 <= i < |d|
    && Matches(d[i], p)
    && forall j :: 0 <= j < i ==> !Matches(d[j], p)
  }

  /** The index `files.find(f => f.startsWith(p))` returns the file of. */
  function FirstWithPrefix(d: Dir, p: string): (r: Option<nat>)
    ensures r.None? <==> NoMatch(d, p)
    ensures r.Some? ==> IsFirstMatch(d, p, r.value)
  {
    if d == [] then None
    else if Matches(d[0], p) then Some(0)
    else match FirstWithPrefix(d[1..], p)
      case None => None
      case Some(i) => Some(i + 1)
  }

  /** The name `files.find(f => f.startsWith(p))` returns. */
  function FirstNameWithPrefix(d: Dir, p: string): (r: Option<string>)
    ensures r.None? <==> NoMatch(d, p)
    ensures r.Some? ==> exists i :: IsFirstMatch(d, p, i) && r.value == d[i].name
  {
    match FirstWithPrefix(d, p)
    case None => None
    case Some(i) => Some(d[i].name)
  }

  /** Number of entries whose name starts with `p`. */
  function CountMatches(d: Dir, p: string): (n: nat)
    ensures n <= |d|
    ensures n == 0 <==> NoMatch(d, p)
  {
    if d == [] then 0
    else (if Matches(d[0], p) then 1 else 0) + CountMatches(d[1..], p)
  }

  /** The index of the entry named exactly `name`, the first one if the
      listing were ever to repeat a name. */
  function IndexOfName(d: Dir, name: string): (r: Option<nat>)
    ensures r.None? <==> forall i :: 0 <= i < |d| ==> d[i].name != name
    ensures r.Some? ==> r.value < |d| && d[r.value].name == name
    ensures r.Some? ==> forall j :: 0 <= j < r.value ==> d[j].name != name
  {
    if d == [] then None
    else if d[0].name == name then Some(0)
    else match IndexOfName(d[1..], name)
      case None => None
      case Some(i) => Some(i + 1)
  }

  /** The bytes a read of `name` would return. */
  function Lookup(d: Dir, name: string): (r: Option<Bytes>)
    ensures r.None? <==> forall i :: 0 <= i < |d| ==> d[i].name != name
    ensures r.Some? ==> exists i :: 0 <= i < |d| && d[i] == Entry(name, r.value)
  {
    match IndexOfName(d, name)
    case None => None
    case Some(i) => Some(d[i].bytes)
  }

  /** The listing after unlinking the entry at `i`; the others keep their
      relative order. */
  function RemoveAt(d: Dir, i: nat): (r: Dir)
    requires i < |d|
    ensures |r| == |d| - 1
    ensures forall j :: 0 <= j < i ==> r[j] == d[j]
    ensures forall j :: i < j < |d| ==> r[j - 1] == d[j]
    ensures multiset(r) + multiset{d[i]} == multiset(d)
  {
    assert d == d[..i] + [d[i]] + d[i + 1..];
    d[..i] + d[i + 1..]
  }

  /** `writeFileSync(name, bytes)`: an existing file is overwritten where it
      is listed; a new file joins the end of the listing. */
  function Write(d: Dir, name: string, bytes: Bytes): (r: Dir)
    ensures Lookup(r, name) == Some(bytes)
    ensures forall e :: e in d && e.name != name ==> e in r
    ensures forall e :: e in r ==> e in d || e == Entry(name, bytes)
  {
    match IndexOfName(d, name)
    case None =>
      var r := d + [Entry(name, bytes)];
      assert r[|d|] == Entry(name, bytes);
      r
    case Some(i) =>
      var r := d[i := Entry(name, bytes)];
      assert r[i] == Entry(name, bytes);
      assert forall j :: 0 <= j < |d| && j != i ==> r[j] == d[j];
      r
  }

  /** Unlinking the first entry whose name starts with `p`, if there is one. */
  function Evict(d: Dir, p: string): (r: Dir)
    ensures NoMatch(d, p) ==> r == d
    ensures forall i :: 0 <= i < |d| && !IsFirstMatch(d, p, i) ==> d[i] in r
    ensures forall e :: e in r ==> e in d
    ensures |r| == if NoMatch(d, p) then |d| else |d| - 1
    ensures forall i :: IsFirstMatch(d, p, i) ==> multiset(r) + multiset{d[i]} == multiset(d)
  {
    match FirstWithPrefix(d, p)
    case None => d
    case Some(i) =>
      var r := RemoveAt(d, i);
      assert forall j :: 0 <= j < |d| && j != i ==> d[j] in r by {
        forall j | 0 <= j < |d| && j != i ensures d[j] in r {
          if j < i { assert r[j] == d[j]; } else { assert r[j - 1] == d[j]; }
        }
      }
      assert forall e :: e in r ==> e in d by {
        forall e | e in r ensures e in d {
          assert e in multiset(r);
        }
      }
      r
  }
}
