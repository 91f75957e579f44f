/** What the three handlers guarantee, one call at a time and over
    sequences of calls: which files an upload may unlink, when the
    one-file-per-slot rule survives, what a later read sees, and where the
    `${patientId}_${type}` prefix scheme lets one slot leak into another. */
module StoreProperties {
  import opened Wrappers
  import opened Decimal
  import opened Directory
  import opened DirectoryFacts
  import opened ImageStore
  import DataUrl

  /** The upload's inputs are all present, so it reaches the file system. */
  predicate Accepted(patientId: string, kind: string, imageData: string) {
    patientId != [] && kind != [] && imageData != []
  }

  // ---------------------------------------------------------------------
  // The generated name and the public path
  // ---------------------------------------------------------------------

  /** The stored name reads `<patientId>_<type>_<digits>.jpg`, the digits
      being the canonical decimal of the upload time; the path serves it. */
  lemma PutFileNameShape(dir: Dir, patientId: string, kind: string, imageData: string,
                         now: nat, decode: string -> Bytes)
    requires Accepted(patientId, kind, imageData)
    ensures var r := Put(dir, patientId, kind, imageData, now, decode);
      && r.reply.Uploaded?
      && r.reply.path == "/clinic-images/" + r.reply.fileName
      && exists digits ::
           && IsCanonical(digits)
           && DecimalValue(digits) == now
           && r.reply.fileName == patientId + "_" + kind + "_" + digits + ".jpg"
  {
    var digits := NatToDecimal(now);
    DecimalRoundTrip(now);
    assert Put(dir, patientId, kind, imageData, now, decode).reply.fileName
      == patientId + "_" + kind + "_" + digits + ".jpg";
  }

  /** Uploads at different milliseconds produce different names, and a name
      determines the time it was made at. */
  lemma FileNameDeterminesTime(patientId: string, kind: string, a: nat, b: nat)
    ensures FileName(patientId, kind, a) == FileName(patientId, kind, b) ==> a == b
  {
    if FileName(patientId, kind, a) == FileName(patientId, kind, b) {
      var p := SlotPrefix(patientId, kind) + "_";
      var x := NatToDecimal(a);
      var y := NatToDecimal(b);
      assert x + Extension == (p + x + Extension)[|p|..];
      assert y + Extension == (p + y + Extension)[|p|..];
      assert x == (x + Extension)[..|x + Extension| - |Extension|];
      assert y == (y + Extension)[..|y + Extension| - |Extension|];
      DecimalInjective(a, b);
    }
  }

  // ---------------------------------------------------------------------
  // Which entries an upload may unlink
  // ---------------------------------------------------------------------

  /** Every file whose name does not start with the slot prefix survives the
      upload with its bytes, and every file the upload leaves is either one
      it found or the one it wrote. */
  lemma PutKeepsOtherFiles(dir: Dir, patientId: string, kind: string, imageData: string,
                           now: nat, decode: string -> Bytes)
    ensures var r := Put(dir, patientId, kind, imageData, now, decode);
      && (forall i :: 0 <= i < |dir| && !Matches(dir[i], SlotPrefix(patientId, kind)) ==> dir[i] in r.dir)
      && (r.reply.Uploaded? ==> forall e :: e in r.dir ==>
            e in dir || e == Entry(r.reply.fileName, decode(DataUrl.Strip(imageData))))
  {
    if Accepted(patientId, kind, imageData) {
      var p := SlotPrefix(patientId, kind);
      var name := FileName(patientId, kind, now);
      var evicted := Evict(dir, p);
      PutSteps(dir, patientId, kind, imageData, now, decode);
      forall i | 0 <= i < |dir| && !Matches(dir[i], p)
        ensures dir[i] in evicted && dir[i].name != name
      {
      }
    }
  }

  /** Files an upload unlinks: the first file of the slot, and otherwise
      only a file it overwrites because it bears the very name it writes. */
  lemma PutUnlinksOnlyFirstMatch(dir: Dir, patientId: string, kind: string, imageData: string,
                                 now: nat, decode: string -> Bytes)
    ensures var r := Put(dir, patientId, kind, imageData, now, decode);
      forall i :: 0 <= i < |dir| && dir[i] !in r.dir ==>
        && r.reply.Uploaded?
        && (IsFirstMatch(dir, SlotPrefix(patientId, kind), i) || dir[i].name == r.reply.fileName)
  {
    if Accepted(patientId, kind, imageData) {
      PutSteps(dir, patientId, kind, imageData, now, decode);
    }
  }

  /** With the one-file-per-slot rule holding, an upload unlinks at most one
      file, the first of its slot, and adds exactly the file it writes. */
  lemma PutReplacesAtMostOne(dir: Dir, patientId: string, kind: string, imageData: string,
                             now: nat, decode: string -> Bytes)
    requires Accepted(patientId, kind, imageData)
    requires CountMatches(dir, SlotPrefix(patientId, kind)) <= 1
    ensures var r := Put(dir, patientId, kind, imageData, now, decode);
      var added := Entry(r.reply.fileName, decode(DataUrl.Strip(imageData)));
      && (NoMatch(dir, SlotPrefix(patientId, kind)) ==>
            multiset(r.dir) == multiset(dir) + multiset{added})
      && (forall i :: IsFirstMatch(dir, SlotPrefix(patientId, kind), i) ==>
            multiset(r.dir) + multiset{dir[i]} == multiset(dir) + multiset{added})
  {
    var p := SlotPrefix(patientId, kind);
    var name := FileName(patientId, kind, now);
    var bytes := decode(DataUrl.Strip(imageData));
    var evicted := Evict(dir, p);
    PutSteps(dir, patientId, kind, imageData, now, decode);
    WriteIntoEmptySlot(dir, p, name, bytes);
    assert multiset(evicted + [Entry(name, bytes)]) == multiset(evicted) + multiset{Entry(name, bytes)};
  }

  /** Writing a slot name after evicting from a slot holding at most one
      file appends it: no file of that name is left to overwrite. */
  lemma WriteIntoEmptySlot(dir: Dir, p: string, name: string, bytes: Bytes)
    requires CountMatches(dir, p) <= 1 && p <= name
    ensures NoMatch(Evict(dir, p), p)
    ensures Write(Evict(dir, p), name, bytes) == Evict(dir, p) + [Entry(name, bytes)]
  {
    var evicted := Evict(dir, p);
    EvictEmptiesSlot(dir, p);
    assert IndexOfName(evicted, name).None?;
  }

  // ---------------------------------------------------------------------
  // One file per slot
  // ---------------------------------------------------------------------

  /** An upload into a slot holding at most one file leaves exactly one
      file there: the new one, holding the decoded payload. */
  lemma PutKeepsSingleSlot(dir: Dir, patientId: string, kind: string, imageData: string,
                           now: nat, decode: string -> Bytes)
    requires Accepted(patientId, kind, imageData)
    requires CountMatches(dir, SlotPrefix(patientId, kind)) <= 1
    ensures var r := Put(dir, patientId, kind, imageData, now, decode);
      && CountMatches(r.dir, SlotPrefix(patientId, kind)) == 1
      && forall i :: 0 <= i < |r.dir| && Matches(r.dir[i], SlotPrefix(patientId, kind)) ==>
           r.dir[i] == Entry(r.reply.fileName, decode(DataUrl.Strip(imageData)))
  {
    var p := SlotPrefix(patientId, kind);
    var name := FileName(patientId, kind, now);
    var bytes := decode(DataUrl.Strip(imageData));
    var evicted := Evict(dir, p);
    PutSteps(dir, patientId, kind, imageData, now, decode);
    WriteIntoEmptySlot(dir, p, name, bytes);
    AppendToEmptySlot(evicted, Entry(name, bytes), p);
    var r := Put(dir, patientId, kind, imageData, now, decode);
    assert r.dir == evicted + [Entry(name, bytes)] && r.reply.fileName == name;
  }

  /** How an upload changes the number of files in its slot, whatever the
      slot held: the first match, if any, is unlinked, and the new name adds
      a file unless it overwrites one still listed (an earlier upload in the
      same millisecond). */
  lemma PutSlotCount(dir: Dir, patientId: string, kind: string, imageData: string,
                     now: nat, decode: string -> Bytes)
    requires Accepted(patientId, kind, imageData)
    ensures var p := SlotPrefix(patientId, kind);
      CountMatches(Put(dir, patientId, kind, imageData, now, decode).dir, p)
        == CountMatches(dir, p) - (if NoMatch(dir, p) then 0 else 1)
           + (if IndexOfName(Evict(dir, p), FileName(patientId, kind, now)).None? then 1 else 0)
  {
    var p := SlotPrefix(patientId, kind);
    var name := FileName(patientId, kind, now);
    var bytes := decode(DataUrl.Strip(imageData));
    PutSteps(dir, patientId, kind, imageData, now, decode);
    CountEvict(dir, p);
    CountWrite(Evict(dir, p), name, bytes, p);
    assert Indicator(Entry(name, bytes), p) == 1;
  }

  /** Two uploads in a row into a slot holding at most one file leave one
      file there, with the second payload. */
  lemma TwoPutsKeepLatest(dir: Dir, patientId: string, kind: string, first: string, second: string,
                          t1: nat, t2: nat, decode: string -> Bytes)
    requires Accepted(patientId, kind, first) && Accepted(patientId, kind, second)
    requires CountMatches(dir, SlotPrefix(patientId, kind)) <= 1
    ensures var mid := Put(dir, patientId, kind, first, t1, decode).dir;
      var r := Put(mid, patientId, kind, second, t2, decode);
      && CountMatches(r.dir, SlotPrefix(patientId, kind)) == 1
      && forall i :: 0 <= i < |r.dir| && Matches(r.dir[i], SlotPrefix(patientId, kind)) ==>
           r.dir[i].bytes == decode(DataUrl.Strip(second))
  {
    var mid := Put(dir, patientId, kind, first, t1, decode).dir;
    PutKeepsSingleSlot(dir, patientId, kind, first, t1, decode);
    PutKeepsSingleSlot(mid, patientId, kind, second, t2, decode);
  }

  // ---------------------------------------------------------------------
  // Reading after writing
  // ---------------------------------------------------------------------

  /** The slot of a type as the get-images reply shows it. */
  function SlotOf(pair: Pair, kind: string): Option<string> {
    if kind == "before" then pair.before else pair.after
  }

  /** After an upload of a "before" or "after" image, the get-images reply
      shows that slot; when the slot held at most one file it shows the
      very path the upload returned, and that path serves the new bytes. */
  lemma PutThenGetPair(dir: Dir, patientId: string, kind: string, imageData: string,
                       now: nat, decode: string -> Bytes)
    requires kind == "before" || kind == "after"
    requires Accepted(patientId, kind, imageData)
    ensures var r := Put(dir, patientId, kind, imageData, now, decode);
      && SlotOf(GetPair(r.dir, patientId), kind).Some?
      && (CountMatches(dir, SlotPrefix(patientId, kind)) <= 1 ==>
            && SlotOf(GetPair(r.dir, patientId), kind) == Some(r.reply.path)
            && Lookup(r.dir, r.reply.fileName) == Some(decode(DataUrl.Strip(imageData))))
  {
    var r := Put(dir, patientId, kind, imageData, now, decode);
    var p := SlotPrefix(patientId, kind);
    var name := r.reply.fileName;
    var k := IndexOfName(r.dir, name).value;
    assert Matches(r.dir[k], p);
    if CountMatches(dir, p) <= 1 {
      PutKeepsSingleSlot(dir, patientId, kind, imageData, now, decode);
      var j := FirstWithPrefix(r.dir, p).value;
      assert r.dir[j].name == name;
    }
  }

  // ---------------------------------------------------------------------
  // Slot independence
  // ---------------------------------------------------------------------

  /** An upload leaves the first file, and the number of files, of every
      prefix incomparable with its slot prefix: no name it unlinks or
      writes can start with such a prefix. */
  lemma PutKeepsIncomparableSlot(dir: Dir, patientId: string, kind: string, imageData: string,
                                 now: nat, decode: string -> Bytes, q: string)
    requires Incomparable(SlotPrefix(patientId, kind), q)
    ensures var r := Put(dir, patientId, kind, imageData, now, decode);
      && FirstNameWithPrefix(r.dir, q) == FirstNameWithPrefix(dir, q)
      && CountMatches(r.dir, q) == CountMatches(dir, q)
  {
    if Accepted(patientId, kind, imageData) {
      var p := SlotPrefix(patientId, kind);
      var name := FileName(patientId, kind, now);
      var bytes := decode(DataUrl.Strip(imageData));
      var evicted := Evict(dir, p);
      FirstNameEvict(dir, p, q);
      CountEvictOther(dir, p, q);
      assert !(q <= name) by {
        if q <= name {
          PrefixesOfOneName(p, q, name);
        }
      }
      FirstNameWrite(evicted, name, bytes, q);
      CountWrite(evicted, name, bytes, q);
    }
  }

  /** "before" and "after" slots of one patient never share a file. */
  lemma BeforeAfterIncomparable(patientId: string)
    ensures Incomparable(SlotPrefix(patientId, "before"), SlotPrefix(patientId, "after"))
  {
    var b := SlotPrefix(patientId, "before");
    var a := SlotPrefix(patientId, "after");
    assert b[|patientId| + 1] == 'b';
    assert a[|patientId| + 1] == 'a';
  }

  /** Uploading a "before" image leaves the patient's "after" slot as the
      get-images reply shows it, and the other way round. */
  lemma PutLeavesOtherKind(dir: Dir, patientId: string, imageData: string,
                           now: nat, decode: string -> Bytes)
    ensures GetPair(Put(dir, patientId, "before", imageData, now, decode).dir, patientId).after
         == GetPair(dir, patientId).after
    ensures GetPair(Put(dir, patientId, "after", imageData, now, decode).dir, patientId).before
         == GetPair(dir, patientId).before
  {
    BeforeAfterIncomparable(patientId);
    PutKeepsIncomparableSlot(dir, patientId, "before", imageData, now, decode, SlotPrefix(patientId, "after"));
    PutKeepsIncomparableSlot(dir, patientId, "after", imageData, now, decode, SlotPrefix(patientId, "before"));
  }

  predicate UnderscoreFree(s: string) {
    forall i :: 0 <= i < |s| ==> s[i] != '_'
  }

  /** Distinct patient ids without `_` give slot prefixes that no file name
      can share, whatever the types. */
  lemma DistinctPatientsIncomparable(p: string, t: string, q: string, u: string)
    requires p != q && UnderscoreFree(p) && UnderscoreFree(q)
    ensures Incomparable(SlotPrefix(p, t), SlotPrefix(q, u))
  {
    var a := SlotPrefix(p, t);
    var b := SlotPrefix(q, u);
    if |p| < |q| && p <= q {
      assert a[|p|] == '_' && b[|p|] == q[|p|];
    } else if |q| < |p| && q <= p {
      assert b[|q|] == '_' && a[|q|] == p[|q|];
    } else {
      var k :| 0 <= k < |p| && k < |q| && p[k] != q[k];
      assert a[k] == p[k] && b[k] == q[k];
    }
  }

  /** With `_`-free patient ids, an upload for one patient leaves another
      patient's get-images reply as it was. */
  lemma PutLeavesOtherPatients(dir: Dir, patientId: string, kind: string, imageData: string,
                               now: nat, decode: string -> Bytes, other: string)
    requires patientId != other && UnderscoreFree(patientId) && UnderscoreFree(other)
    ensures GetPair(Put(dir, patientId, kind, imageData, now, decode).dir, other) == GetPair(dir, other)
  {
    DistinctPatientsIncomparable(patientId, kind, other, "before");
    DistinctPatientsIncomparable(patientId, kind, other, "after");
    PutKeepsIncomparableSlot(dir, patientId, kind, imageData, now, decode, SlotPrefix(other, "before"));
    PutKeepsIncomparableSlot(dir, patientId, kind, imageData, now, decode, SlotPrefix(other, "after"));
  }

  // ---------------------------------------------------------------------
  // Delete, and the directory as a whole
  // ---------------------------------------------------------------------

  /** Deleting a listed name unlinks that file and nothing else; the name is
      gone afterwards. */
  lemma DeleteRemovesExactlyNamed(dir: Dir, fileName: string)
    requires DistinctNames(dir)
    requires Lookup(dir, fileName).Some?
    ensures var r := Delete(dir, fileName);
      && r.reply == Deleted
      && Lookup(r.dir, fileName) == None
      && (forall i :: 0 <= i < |dir| && dir[i].name != fileName ==> dir[i] in r.dir)
      && (forall e :: e in r.dir ==> e in dir && e.name != fileName)
  {
    var i := IndexOfName(dir, fileName).value;
    var r := RemoveAt(dir, i);
    RemoveAtDropsName(dir, i);
    forall j | 0 <= j < |dir| && dir[j].name != fileName ensures dir[j] in r {
      if j < i { assert r[j] == dir[j]; } else { assert r[j - 1] == dir[j]; }
    }
    forall e | e in r ensures e in dir {
      assert e in multiset(r);
    }
  }

  /** A delete never adds a file to any slot: it removes one exactly when
      the deleted name lies in the slot, so the one-file-per-slot rule
      survives every delete. */
  lemma DeleteNeverGrowsSlot(dir: Dir, fileName: string, p: string)
    ensures var r := Delete(dir, fileName);
      CountMatches(r.dir, p) == CountMatches(dir, p) - (if r.reply == Deleted && p <= fileName then 1 else 0)
    ensures CountMatches(Delete(dir, fileName).dir, p) <= CountMatches(dir, p)
  {
    match IndexOfName(dir, fileName)
    case None =>
    case Some(i) => CountRemoveAt(dir, i, p);
  }

  /** Uploads keep the names of the directory distinct. */
  lemma PutPreservesDistinct(dir: Dir, patientId: string, kind: string, imageData: string,
                             now: nat, decode: string -> Bytes)
    requires DistinctNames(dir)
    ensures DistinctNames(Put(dir, patientId, kind, imageData, now, decode).dir)
  {
    if Accepted(patientId, kind, imageData) {
      var p := SlotPrefix(patientId, kind);
      PutSteps(dir, patientId, kind, imageData, now, decode);
      match FirstWithPrefix(dir, p)
      case None =>
      case Some(i) => RemoveAtPreservesDistinct(dir, i);
      WritePreservesDistinct(Evict(dir, p), FileName(patientId, kind, now), decode(DataUrl.Strip(imageData)));
    }
  }

  /** Deletes keep the names of the directory distinct. */
  lemma DeletePreservesDistinct(dir: Dir, fileName: string)
    requires DistinctNames(dir)
    ensures DistinctNames(Delete(dir, fileName).dir)
  {
    match IndexOfName(dir, fileName)
    case None =>
    case Some(i) => RemoveAtPreservesDistinct(dir, i);
  }

  // ---------------------------------------------------------------------
  // The data-URL header
  // ---------------------------------------------------------------------

  /** Uploading a payload as a data URL or as bare base64 has the same
      effect, as long as the bare payload does not itself start with a
      header (the replacement is anchored at the start). */
  lemma DataUrlUploadSameAsRaw(dir: Dir, patientId: string, kind: string, w: string, payload: string,
                               now: nat, decode: string -> Bytes)
    requires DataUrl.IsWord(w) && payload != [] && !DataUrl.HasHeader(payload)
    ensures Put(dir, patientId, kind, DataUrl.Header(w) + payload, now, decode)
         == Put(dir, patientId, kind, payload, now, decode)
  {
    DataUrl.StripRemovesHeader(w, payload);
  }

  /** Only one header is stripped: a doubled header leaves the inner one. */
  lemma StripOnlyOnce(w: string, payload: string)
    requires DataUrl.IsWord(w)
    ensures DataUrl.Strip(DataUrl.Header(w) + DataUrl.Header(w) + payload) == DataUrl.Header(w) + payload
  {
    assert DataUrl.Header(w) + DataUrl.Header(w) + payload == DataUrl.Header(w) + (DataUrl.Header(w) + payload);
    DataUrl.StripRemovesHeader(w, DataUrl.Header(w) + payload);
  }

  // ---------------------------------------------------------------------
  // End to end
  // ---------------------------------------------------------------------

  /** Upload a "before" image for a patient with no files, read the pair,
      delete the file, read again: the reads show the path, then nothing. */
  lemma UploadReadDeleteRead(dir: Dir, patientId: string, imageData: string,
                             now: nat, decode: string -> Bytes)
    requires Accepted(patientId, "before", imageData)
    requires NoMatch(dir, SlotPrefix(patientId, "before"))
    requires NoMatch(dir, SlotPrefix(patientId, "after"))
    ensures var up := Put(dir, patientId, "before", imageData, now, decode);
      var del := Delete(up.dir, up.reply.fileName);
      && up.reply.Uploaded?
      && GetPair(up.dir, patientId) == Pair(Some(up.reply.path), None)
      && del.reply == Deleted
      && GetPair(del.dir, patientId) == Pair(None, None)
  {
    var up := Put(dir, patientId, "before", imageData, now, decode);
    var p := SlotPrefix(patientId, "before");
    var name := up.reply.fileName;
    PutThenGetPair(dir, patientId, "before", imageData, now, decode);
    PutLeavesOtherKind(dir, patientId, imageData, now, decode);
    PutKeepsSingleSlot(dir, patientId, "before", imageData, now, decode);
    var i := IndexOfName(up.dir, name).value;
    var rest := RemoveAt(up.dir, i);
    CountRemoveAt(up.dir, i, p);
    assert Matches(up.dir[i], p);
    assert NoMatch(rest, p);
    BeforeAfterIncomparable(patientId);
    IncomparableExclusive(p, SlotPrefix(patientId, "after"), up.dir[i]);
    FirstNameRemoveAt(up.dir, i, SlotPrefix(patientId, "after"));
  }
}
