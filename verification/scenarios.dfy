/** Concrete runs of the handlers. They pin down behaviour the general
    properties only bound: what a same-millisecond upload does to a slot
    that already holds two files, and how the `${patientId}_${type}` prefix
    lets patients whose ids contain `_` reach into each other's slots.
    "AAAA" is the base64 of three zero bytes, which is what `decode` is
    required to give for it. */
module Scenarios {
  import opened Wrappers
  import opened Decimal
  import opened Directory
  import opened DirectoryFacts
  import opened ImageStore
  import DataUrl

  /** Bare base64 is stored as it is. */
  lemma RawPayloadUnchanged(s: string)
    requires !(DataUrl.Scheme <= s)
    ensures DataUrl.Strip(s) == s
  {
  }

  // ---------------------------------------------------------------------
  // Two files in one slot: 7_before_1.jpg and 7_before_2.jpg
  // ---------------------------------------------------------------------

  lemma EvictFirstOfTwo()
    ensures Evict([Entry("7_before_1.jpg", [1]), Entry("7_before_2.jpg", [2])], SlotPrefix("7", "before")) == [Entry("7_before_2.jpg", [2])]
  {
    assert SlotPrefix("7", "before") == "7_before";
    assert IsFirstMatch([Entry("7_before_1.jpg", [1]), Entry("7_before_2.jpg", [2])], "7_before", 0);
  }

  lemma NameAt2()
    ensures FileName("7", "before", 2) == "7_before_2.jpg"
  {
    assert NatToDecimal(2) == "2";
  }

  lemma NameAt3()
    ensures FileName("7", "before", 3) == "7_before_3.jpg"
  {
    assert NatToDecimal(3) == "3";
  }

  lemma OverwriteSecond(b: Bytes)
    ensures Write([Entry("7_before_2.jpg", [2])], "7_before_2.jpg", b) == [Entry("7_before_2.jpg", b)]
  {
    assert IndexOfName([Entry("7_before_2.jpg", [2])], "7_before_2.jpg") == Some(0);
  }

  lemma AppendThird(b: Bytes)
    ensures Write([Entry("7_before_2.jpg", [2])], "7_before_3.jpg", b)
         == [Entry("7_before_2.jpg", [2]), Entry("7_before_3.jpg", b)]
  {
    assert "7_before_2.jpg"[9] != "7_before_3.jpg"[9];
    assert IndexOfName([Entry("7_before_2.jpg", [2])], "7_before_3.jpg") == None;
  }

  /** An upload in the same millisecond as the second file of a slot that
      already holds two unlinks the first and overwrites the second: both
      old files are gone, not one. */
  lemma PutCollisionUnlinksTwo(decode: string -> Bytes)
    requires decode("AAAA") == [0, 0, 0]
    ensures var r := Put([Entry("7_before_1.jpg", [1]), Entry("7_before_2.jpg", [2])], "7", "before", "AAAA", 2, decode);
      && r.dir == [Entry("7_before_2.jpg", [0, 0, 0])]
      && Entry("7_before_1.jpg", [1]) !in r.dir && Entry("7_before_2.jpg", [2]) !in r.dir
  {
    NameAt2();
    EvictFirstOfTwo();
    OverwriteSecond([0, 0, 0]);
    RawPayloadUnchanged("AAAA");
    PutSteps([Entry("7_before_1.jpg", [1]), Entry("7_before_2.jpg", [2])], "7", "before", "AAAA", 2, decode);
    BothOldFilesGone();
  }

  lemma BothOldFilesGone()
    ensures Entry("7_before_1.jpg", [1]) !in [Entry("7_before_2.jpg", [0, 0, 0])]
    ensures Entry("7_before_2.jpg", [2]) !in [Entry("7_before_2.jpg", [0, 0, 0])]
  {
    assert "7_before_1.jpg"[9] != "7_before_2.jpg"[9];
    var before: Bytes := [2];
    var after: Bytes := [0, 0, 0];
    assert |before| != |after|;
  }

  /** An upload into a slot that already holds two files leaves two there:
      the upload does not repair a broken slot. */
  lemma PutDoesNotRepairSlot(decode: string -> Bytes)
    requires decode("AAAA") == [0, 0, 0]
    ensures var r := Put([Entry("7_before_1.jpg", [1]), Entry("7_before_2.jpg", [2])], "7", "before", "AAAA", 3, decode);
      && r.dir == [Entry("7_before_2.jpg", [2]), Entry("7_before_3.jpg", [0, 0, 0])]
      && CountMatches(r.dir, SlotPrefix("7", "before")) == 2
  {
    NameAt3();
    EvictFirstOfTwo();
    AppendThird([0, 0, 0]);
    RawPayloadUnchanged("AAAA");
    PutSteps([Entry("7_before_1.jpg", [1]), Entry("7_before_2.jpg", [2])], "7", "before", "AAAA", 3, decode);
    TwoLeftInSlot();
  }

  lemma TwoLeftInSlot()
    ensures CountMatches([Entry("7_before_2.jpg", [2]), Entry("7_before_3.jpg", [0, 0, 0])], SlotPrefix("7", "before")) == 2
  {
    var out := [Entry("7_before_2.jpg", [2]), Entry("7_before_3.jpg", [0, 0, 0])];
    assert SlotPrefix("7", "before") == "7_before";
    CountConcat([out[0]], [out[1]], "7_before");
    assert [out[0]] + [out[1]] == out;
  }

  // ---------------------------------------------------------------------
  // Ids that contain the separator
  // ---------------------------------------------------------------------

  lemma ReadOtherPatientsFile()
    ensures GetPair([Entry("1_before_after_5.jpg", [9])], "1").before == Some("/clinic-images/1_before_after_5.jpg")
  {
    assert SlotPrefix("1", "before") == "1_before";
    assert IsFirstMatch([Entry("1_before_after_5.jpg", [9])], "1_before", 0);
    assert FirstWithPrefix([Entry("1_before_after_5.jpg", [9])], "1_before") == Some(0);
    assert FirstNameWithPrefix([Entry("1_before_after_5.jpg", [9])], "1_before") == Some("1_before_after_5.jpg");
    assert PublicPath("1_before_after_5.jpg") == "/clinic-images/1_before_after_5.jpg";
  }

  lemma EvictOtherPatientsFile()
    ensures Evict([Entry("1_before_after_5.jpg", [9])], SlotPrefix("1", "before")) == []
  {
    assert SlotPrefix("1", "before") == "1_before";
    assert IsFirstMatch([Entry("1_before_after_5.jpg", [9])], "1_before", 0);
  }

  /** The "after" file of patient "1_before" is shown as patient "1"'s
      "before" image, and a "before" upload for patient "1" unlinks it. */
  lemma UploadUnlinksOtherPatientsFile(decode: string -> Bytes)
    requires decode("AAAA") == [0, 0, 0]
    ensures GetPair([Entry("1_before_after_5.jpg", [9])], "1").before == Some("/clinic-images/1_before_after_5.jpg")
    ensures Put([Entry("1_before_after_5.jpg", [9])], "1", "before", "AAAA", 6, decode).dir
         == [Entry("1_before_6.jpg", [0, 0, 0])]
  {
    ReadOtherPatientsFile();
    EvictOtherPatientsFile();
    assert FileName("1", "before", 6) == "1_before_6.jpg" by {
      assert NatToDecimal(6) == "6";
    }
    RawPayloadUnchanged("AAAA");
    PutSteps([Entry("1_before_after_5.jpg", [9])], "1", "before", "AAAA", 6, decode);
  }

  lemma UploadIntoEmpty(decode: string -> Bytes)
    requires decode("AAAA") == [0, 0, 0]
    ensures Put([], "1_after", "before", "AAAA", 6, decode).dir
         == [Entry("1_after_before_6.jpg", [0, 0, 0])]
  {
    assert FileName("1_after", "before", 6) == "1_after_before_6.jpg" by {
      assert NatToDecimal(6) == "6";
    }
    RawPayloadUnchanged("AAAA");
    PutSteps([], "1_after", "before", "AAAA", 6, decode);
  }

  lemma ReadFilledSlot()
    ensures GetPair([Entry("1_after_before_6.jpg", [0, 0, 0])], "1").after
         == Some("/clinic-images/1_after_before_6.jpg")
  {
    var d := [Entry("1_after_before_6.jpg", [0, 0, 0])];
    assert SlotPrefix("1", "after") == "1_after";
    assert IsFirstMatch(d, "1_after", 0);
    assert FirstWithPrefix(d, "1_after") == Some(0);
    assert FirstNameWithPrefix(d, "1_after") == Some("1_after_before_6.jpg");
    assert PublicPath("1_after_before_6.jpg") == "/clinic-images/1_after_before_6.jpg";
  }

  /** A "before" upload for patient "1_after" fills the empty "after" slot
      of patient "1". */
  lemma UploadFillsOtherPatientsSlot(decode: string -> Bytes)
    requires decode("AAAA") == [0, 0, 0]
    ensures GetPair([], "1").after == None
    ensures GetPair(Put([], "1_after", "before", "AAAA", 6, decode).dir, "1").after
         == Some("/clinic-images/1_after_before_6.jpg")
  {
    UploadIntoEmpty(decode);
    ReadFilledSlot();
  }

  lemma EvictBeforeThroughShortKind()
    ensures Evict([Entry("7_before_1.jpg", [1])], SlotPrefix("7", "bef")) == []
  {
    assert SlotPrefix("7", "bef") == "7_bef";
    assert IsFirstMatch([Entry("7_before_1.jpg", [1])], "7_bef", 0);
  }

  lemma NameShortKind()
    ensures FileName("7", "bef", 2) == "7_bef_2.jpg"
  {
    assert NatToDecimal(2) == "2";
  }

  lemma ReadBeforeSlot()
    ensures GetPair([Entry("7_before_1.jpg", [1])], "7").before == Some("/clinic-images/7_before_1.jpg")
  {
    var d := [Entry("7_before_1.jpg", [1])];
    assert SlotPrefix("7", "before") == "7_before";
    assert IsFirstMatch(d, "7_before", 0);
    assert FirstWithPrefix(d, "7_before") == Some(0);
    assert FirstNameWithPrefix(d, "7_before") == Some("7_before_1.jpg");
    assert PublicPath("7_before_1.jpg") == "/clinic-images/7_before_1.jpg";
  }

  lemma ShortKindIsNoBefore()
    ensures GetPair([Entry("7_bef_2.jpg", [0, 0, 0])], "7").before == None
  {
    assert SlotPrefix("7", "before") == "7_before";
    assert "7_bef_2.jpg"[5] != "7_before"[5];
  }

  /** The type is an opaque string too: an upload for patient 7 with type
      "bef" unlinks the patient's "before" image and stores a file that no
      read shows. */
  lemma UploadWithShortKindUnlinksBefore(decode: string -> Bytes)
    requires decode("AAAA") == [0, 0, 0]
    ensures GetPair([Entry("7_before_1.jpg", [1])], "7").before == Some("/clinic-images/7_before_1.jpg")
    ensures var r := Put([Entry("7_before_1.jpg", [1])], "7", "bef", "AAAA", 2, decode);
      && r.dir == [Entry("7_bef_2.jpg", [0, 0, 0])]
      && GetPair(r.dir, "7").before == None
  {
    ReadBeforeSlot();
    EvictBeforeThroughShortKind();
    NameShortKind();
    RawPayloadUnchanged("AAAA");
    PutSteps([Entry("7_before_1.jpg", [1])], "7", "bef", "AAAA", 2, decode);
    ShortKindIsNoBefore();
  }

  // ---------------------------------------------------------------------
  // The upload of a JPEG data URL for patient 42
  // ---------------------------------------------------------------------

  lemma StripJpegHeader()
    ensures DataUrl.Strip("data:image/jpeg;base64,/9j/4AA") == "/9j/4AA"
  {
    var data := "data:image/jpeg;base64,/9j/4AA";
    assert data == DataUrl.Header("jpeg") + "/9j/4AA";
    assert DataUrl.IsWord("jpeg");
    DataUrl.StripRemovesHeader("jpeg", "/9j/4AA");
  }

  /** The only file of an otherwise empty directory, named for patient 42's
      "before" slot, is that slot's image and not the "after" one. */
  lemma ReadOnlyBefore(now: nat, bytes: Bytes)
    ensures var name := FileName("42", "before", now);
      GetPair([Entry(name, bytes)], "42") == Pair(Some(PublicPath(name)), None)
  {
    var name := FileName("42", "before", now);
    var d := [Entry(name, bytes)];
    assert IsFirstMatch(d, SlotPrefix("42", "before"), 0);
    assert FirstWithPrefix(d, SlotPrefix("42", "before")) == Some(0);
    assert !Matches(d[0], SlotPrefix("42", "after")) by {
      assert name[3] == 'b';
      assert SlotPrefix("42", "after")[3] == 'a';
    }
  }

  lemma Name42(now: nat)
    ensures FileName("42", "before", now) == "42_before_" + NatToDecimal(now) + ".jpg"
  {
  }

  lemma PutJpegDataUrl(now: nat, decode: string -> Bytes)
    ensures var name := FileName("42", "before", now);
      Put([], "42", "before", "data:image/jpeg;base64,/9j/4AA", now, decode)
        == Step(Uploaded(name, PublicPath(name)), [Entry(name, decode("/9j/4AA"))])
  {
    StripJpegHeader();
    PutSteps([], "42", "before", "data:image/jpeg;base64,/9j/4AA", now, decode);
    var name := FileName("42", "before", now);
    assert Write([], name, decode("/9j/4AA")) == [Entry(name, decode("/9j/4AA"))];
  }

  /** `42_before_<digits>.jpg`, served under `/clinic-images/`, holding the
      decoded payload without its `data:image/jpeg;base64,` header. */
  lemma UploadJpegDataUrl(now: nat, decode: string -> Bytes)
    ensures var r := Put([], "42", "before", "data:image/jpeg;base64,/9j/4AA", now, decode);
      && r.reply.Uploaded?
      && r.reply.fileName == "42_before_" + NatToDecimal(now) + ".jpg"
      && r.reply.path == "/clinic-images/" + r.reply.fileName
      && r.dir == [Entry(r.reply.fileName, decode("/9j/4AA"))]
      && GetPair(r.dir, "42") == Pair(Some(r.reply.path), None)
  {
    PutJpegDataUrl(now, decode);
    Name42(now);
    ReadOnlyBefore(now, decode("/9j/4AA"));
  }
}
