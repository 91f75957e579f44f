/** The three handlers of the image service (images.js), each a pure step
    from a directory to a reply and, for the two that write, a new
    directory. The HTTP layer around them (routing, status codes, JSON
    bodies) is not modelled; the replies name what the handler sends. */
module ImageStore {
  import opened Wrappers
  import opened Decimal
  import opened Directory
  import DataUrl

  /** The URL prefix under which the image directory is served. */
  const PublicRoot: string := "/clinic-images/"
  const Extension: string := ".jpg"

  /** What a handler answers and the directory it leaves behind. */
  datatype Step<+R> = Step(reply: R, dir: Dir)

  /** Reply of POST /api/upload-image. */
  datatype PutReply =
    | Uploaded(fileName: string, path: string)  // 200, { success, fileName, path }
    | MissingFields                             // 400, 'Missing required fields'

  /** Reply of GET /api/get-images/:patientId; `None` is JSON `null`. */
  datatype Pair = Pair(before: Option<string>, after: Option<string>)

  /** Reply of DELETE /api/delete-image/:fileName. */
  datatype DeleteReply =
    | Deleted   // 200, { success: true }
    | NotFound  // 404, 'Not found'

  /** The file-name prefix a slot is recognised by: `${patientId}_${type}`. */
  function SlotPrefix(patientId: string, kind: string): string {
    patientId + "_" + kind
  }

  /** `${patientId}_${type}_${Date.now()}.jpg` */
  function FileName(patientId: string, kind: string, now: nat): (name: string)
    ensures SlotPrefix(patientId, kind) + "_" <= name
  {
    SlotPrefix(patientId, kind) + "_" + NatToDecimal(now) + Extension
  }

  /** The URL a stored file is served under. */
  function PublicPath(fileName: string): string {
    PublicRoot + fileName
  }

  /** Upload: reject a missing field; otherwise unlink the first file of the
      slot, if any, and store the decoded payload under a fresh time-stamped
      name. `decode` stands for `Buffer.from(_, 'base64')`, `now` for
      `Date.now()`. */
  function Put(dir: Dir, patientId: string, kind: string, imageData: string,
               now: nat, decode: string -> Bytes): (r: Step<PutReply>)
    ensures r.reply.MissingFields? <==> patientId == [] || kind == [] || imageData == []
    ensures r.reply.MissingFields? ==> r.dir == dir
    ensures r.reply.Uploaded? ==>
      && SlotPrefix(patientId, kind) + "_" <= r.reply.fileName
      && r.reply.path == PublicRoot + r.reply.fileName
      && Lookup(r.dir, r.reply.fileName) == Some(decode(DataUrl.Strip(imageData)))
  {
    if patientId == [] || kind == [] || imageData == [] then
      Step(MissingFields, dir)
    else
      var evicted := Evict(dir, SlotPrefix(patientId, kind));
      var bytes := decode(DataUrl.Strip(imageData));
      var name := FileName(patientId, kind, now);
      Step(Uploaded(name, PublicPath(name)), Write(evicted, name, bytes))
  }

  /** An accepted upload is an eviction followed by a write. */
  lemma PutSteps(dir: Dir, patientId: string, kind: string, imageData: string,
                 now: nat, decode: string -> Bytes)
    requires patientId != [] && kind != [] && imageData != []
    ensures var name := FileName(patientId, kind, now);
      Put(dir, patientId, kind, imageData, now, decode) ==
        Step(Uploaded(name, PublicRoot + name),
             Write(Evict(dir, SlotPrefix(patientId, kind)), name, decode(DataUrl.Strip(imageData))))
  {
  }

  /** The public path of the first file whose name starts with `p`. */
  function FirstPath(dir: Dir, p: string): (r: Option<string>)
    ensures r.None? <==> NoMatch(dir, p)
    ensures r.Some? ==> exists i :: IsFirstMatch(dir, p, i) && r.value == PublicRoot + dir[i].name
  {
    match FirstNameWithPrefix(dir, p)
    case None => None
    case Some(name) => Some(PublicPath(name))
  }

  /** Get images: the first "before" and the first "after" file of the
      patient, as public paths. Reading never changes the directory, so the
      step returns only the reply. */
  function GetPair(dir: Dir, patientId: string): (r: Pair)
    ensures r.before.None? <==> NoMatch(dir, SlotPrefix(patientId, "before"))
    ensures r.after.None? <==> NoMatch(dir, SlotPrefix(patientId, "after"))
    ensures r.before.Some? ==> exists i ::
      IsFirstMatch(dir, SlotPrefix(patientId, "before"), i) && r.before.value == PublicRoot + dir[i].name
    ensures r.after.Some? ==> exists i ::
      IsFirstMatch(dir, SlotPrefix(patientId, "after"), i) && r.after.value == PublicRoot + dir[i].name
  {
    Pair(FirstPath(dir, SlotPrefix(patientId, "before")), FirstPath(dir, SlotPrefix(patientId, "after")))
  }

  /** Delete: unlink the file with exactly this name, or answer not found. */
  function Delete(dir: Dir, fileName: string): (r: Step<DeleteReply>)
    ensures r.reply == NotFound <==> forall i :: 0 <= i < |dir| ==> dir[i].name != fileName
    ensures r.reply == NotFound ==> r.dir == dir
    ensures r.reply == Deleted ==>
      && |r.dir| == |dir| - 1
      && exists i :: 0 <= i < |dir| && dir[i].name == fileName && multiset(r.dir) + multiset{dir[i]} == multiset(dir)
  {
    match IndexOfName(dir, fileName)
    case None => Step(NotFound, dir)
    case Some(i) => Step(Deleted, RemoveAt(dir, i))
  }
}
