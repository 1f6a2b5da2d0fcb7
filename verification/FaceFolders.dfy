/** Enrolling, removing and reloading: what each does to the folders and to the index in memory, at
    every point where the file system can fail. */
module FaceFolders {
  import opened Options
  import opened FaceIndex

  // A student's folder, the one being written, and the previous one moved aside.
  datatype Path = Main(id: StudentId) | Tmp(id: StudentId) | Old(id: StudentId)

  type Disk = map<Path, Folder>

  datatype Service = Service(disk: Disk, known: Known)

  // ---- loading everything ---------------------------------------------------------

  // `order`: the order in which the folders are listed.
  function LoadFirst(vision: Vision, disk: Disk, order: seq<StudentId>, n: nat): (known: Known)
    requires n <= |order| && forall id :: id in order ==> Main(id) in disk
    ensures |known.ids| == |known.rows|
  {
    if n == 0 then Known([], [])
    else
      var before := LoadFirst(vision, disk, order, n - 1);
      var encoding := Analyze(vision, disk[Main(order[n - 1])]).0;
      if encoding == None then before else Known(before.ids + [order[n - 1]], before.rows + [encoding.value])
  }

  ghost predicate IsListing(disk: Disk, order: seq<StudentId>) {
    AllDiffer(order) && forall id :: id in order <==> Main(id) in disk
  }

  // What a full reload finds for one student.
  function EncodingOf(vision: Vision, disk: Disk, id: StudentId): Option<Encoding> {
    if Main(id) in disk then Analyze(vision, disk[Main(id)]).0 else None
  }

  // The index holds exactly what a reload of the disk would.
  ghost predicate InStep(vision: Vision, known: Known, disk: Disk) {
    KnownOk(known) && forall id :: Lookup(known, id) == EncodingOf(vision, disk, id)
  }

  lemma LookupLast(known: Known, id: StudentId, row: Encoding)
    requires KnownOk(known) && id !in known.ids
    ensures var after := Known(known.ids + [id], known.rows + [row]);
            KnownOk(after) && forall i :: Lookup(after, i) == if i == id then Some(row) else Lookup(known, i)
  {
  }

  // The index holds exactly the analysable folders among the listed ones.
  ghost predicate Loaded(vision: Vision, disk: Disk, known: Known, listed: seq<StudentId>) {
    && KnownOk(known)
    && (forall id :: id in known.ids ==> id in listed)
    && forall id :: Lookup(known, id) == if id in listed then EncodingOf(vision, disk, id) else None
  }

  lemma OneMoreLoaded(vision: Vision, disk: Disk, known: Known, listed: seq<StudentId>, id: StudentId)
    requires Loaded(vision, disk, known, listed) && id !in listed && Main(id) in disk
    ensures var encoding := Analyze(vision, disk[Main(id)]).0;
            Loaded(vision, disk, if encoding == None then known else Known(known.ids + [id], known.rows + [encoding.value]), listed + [id])
  {
    hide Lookup, Analyze, KnownOk;
    if Analyze(vision, disk[Main(id)]).0.Some? {
      LookupLast(known, id, Analyze(vision, disk[Main(id)]).0.value);
    }
  }

  lemma {:induction false} LoadFirstExact(vision: Vision, disk: Disk, order: seq<StudentId>, n: nat)
    requires IsListing(disk, order) && n <= |order|
    ensures Loaded(vision, disk, LoadFirst(vision, disk, order, n), order[..n])
  {
    if n > 0 {
      hide Analyze, Loaded;
      LoadFirstExact(vision, disk, order, n - 1);
      assert order[..n] == order[..n - 1] + [order[n - 1]];
      OneMoreLoaded(vision, disk, LoadFirst(vision, disk, order, n - 1), order[..n - 1], order[n - 1]);
    } else {
      NothingLoaded();
    }
  }

  lemma NothingLoaded()
    ensures KnownOk(Known([], [])) && forall id :: Lookup(Known([], []), id) == None
  {
  }

  /** A reload puts the index in step with any disk, whatever it held before. */
  lemma ReloadIsInStep(vision: Vision, disk: Disk, order: seq<StudentId>)
    requires IsListing(disk, order)
    ensures InStep(vision, LoadFirst(vision, disk, order, |order|), disk)
  {
    hide Lookup, Analyze, LoadFirst;
    LoadFirstExact(vision, disk, order, |order|);
    assert order[..|order|] == order;
  }

  // ---- uploads ------------------------------------------------------------------------

  datatype Upload = Upload(size: nat, extension: Option<string>, fits: bool, image: Image)

  datatype Refusal = InvalidRequest | TooLarge | NoFace | Failure

  function UploadRefusal(photos: seq<Upload>): Option<Refusal> {
    if photos == [] || |photos| > ENROLL_MAX_IMAGES then Some(InvalidRequest) else FirstRefusal(photos)
  }

  function FirstRefusal(photos: seq<Upload>): Option<Refusal> {
    if photos == [] then None
    else if photos[0].size > MAX_ENROLL_IMAGE_BYTES then Some(TooLarge)
    else if photos[0].extension == None || !photos[0].fits then Some(InvalidRequest)
    else FirstRefusal(photos[1..])
  }

  function FileName(index: nat, extension: string): string
    requires index < 10
  {
    [('0' as int + index) as char] + extension
  }

  function FileFor(photos: seq<Upload>, i: nat): Entry
    requires i < |photos| <= ENROLL_MAX_IMAGES
  {
    var ext := if photos[i].extension.Some? then photos[i].extension.value else "";
    Entry(FileName(i, ext), photos[i].extension.Some?, photos[i].size, photos[i].image)
  }

  // The folder after the first `n` photos have been written.
  function Written(photos: seq<Upload>, n: nat): Folder
    requires n <= |photos| <= ENROLL_MAX_IMAGES
  {
    seq(n, i requires 0 <= i < n => FileFor(photos, i))
  }

  // At most eight numbered files: written one after the other, they are listed in that order.
  lemma UploadsAreInNameOrder(photos: seq<Upload>, n: nat)
    requires n <= |photos| <= ENROLL_MAX_IMAGES
    ensures InNameOrder(Written(photos, n))
  {
  }

  // ---- enrolling -------------------------------------------------------------------------

  // Which file-system operations fail; a removal that fails leaves the folder as it was.
  datatype Faults = Faults(
    clearTmp: bool, makeTmp: bool, write: Option<nat>, analyze: bool, trim: bool,
    clearOld: bool, moveAside: bool, swap: bool, dropOld: bool, clearTmpAfter: bool)

  datatype Stored = Swapped(encoding: Encoding) | Unusable | Broken

  function Cleared(disk: Disk, path: Path, fails: bool): Disk {
    if fails then disk else disk - {path}
  }

  // A fresh folder with every photo written into it, if nothing fails.
  function WriteTmp(disk: Disk, id: StudentId, photos: seq<Upload>, f: Faults): (Disk, bool)
    requires |photos| <= ENROLL_MAX_IMAGES
  {
    var cleared := Cleared(disk, Tmp(id), f.clearTmp);
    if Tmp(id) in cleared || f.makeTmp then (cleared, false)
    else if f.write.Some? && f.write.value < |photos| then (cleared[Tmp(id) := Written(photos, f.write.value)], false)
    else (cleared[Tmp(id) := Written(photos, |photos|)], true)
  }

  // One student's folder replaced by the finished one, or the previous one put back.
  function Swap(disk: Disk, id: StudentId, f: Faults): (Disk, bool)
    requires Tmp(id) in disk
  {
    var cleared := Cleared(disk, Old(id), f.clearOld);
    if Main(id) in cleared && (f.moveAside || (Old(id) in cleared && cleared[Old(id)] != [])) then (cleared, false)
    else
      var aside := if Main(id) in cleared then cleared[Old(id) := cleared[Main(id)]] - {Main(id)} else cleared;
      if f.swap then
        (if Old(id) in aside && Main(id) !in aside then aside[Main(id) := aside[Old(id)]] - {Old(id)} else aside, false)
      else
        (Cleared(aside[Main(id) := aside[Tmp(id)]] - {Tmp(id)}, Old(id), f.dropOld), true)
  }

  function Store(vision: Vision, disk: Disk, id: StudentId, photos: seq<Upload>, f: Faults): (Disk, Stored)
    requires |photos| <= ENROLL_MAX_IMAGES
  {
    var (written, ok) := WriteTmp(disk, id, photos, f);
    if !ok || f.analyze then (Cleared(written, Tmp(id), f.clearTmpAfter), Broken)
    else
      var (encoding, usable) := Analyze(vision, written[Tmp(id)]);
      if encoding == None then (Cleared(written, Tmp(id), f.clearTmpAfter), Unusable)
      else if f.trim then (Cleared(written, Tmp(id), f.clearTmpAfter), Broken)
      else
        var kept := written[Tmp(id) := Keep(written[Tmp(id)], set n | n in usable)];
        var (swapped, done) := Swap(kept, id, f);
        if done then (swapped, Swapped(encoding.value)) else (Cleared(swapped, Tmp(id), f.clearTmpAfter), Broken)
  }

  function Enroll(vision: Vision, s: Service, id: int, photos: seq<Upload>, f: Faults): (Service, Option<Refusal>)
    requires |s.known.ids| == |s.known.rows|
  {
    if !(1 <= id <= 999_999_999) then (s, Some(InvalidRequest))
    else
      var refusal := UploadRefusal(photos);
      if refusal.Some? then (s, refusal)
      else
        var (disk, stored) := Store(vision, s.disk, id, photos, f);
        match stored
        case Swapped(encoding) => (Service(disk, WithStudent(s.known, id, encoding)), None)
        case Unusable => (s.(disk := disk), Some(NoFace))
        case Broken => (s.(disk := disk), Some(Failure))
  }

  // ---- removing -----------------------------------------------------------------------------

  datatype RemovalFault = AllRemoved | MainStays | TmpStays | OldStays

  function RemoveFolders(disk: Disk, id: StudentId, fault: RemovalFault): (Disk, bool) {
    if Main(id) in disk && fault == MainStays then (disk, false)
    else if Tmp(id) in disk && fault == TmpStays then (disk - {Main(id)}, false)
    else if Old(id) in disk && fault == OldStays then (disk - {Main(id), Tmp(id)}, false)
    else (disk - {Main(id), Tmp(id), Old(id)}, true)
  }

  function Unenroll(s: Service, id: int, fault: RemovalFault): (Service, Option<Refusal>)
    requires |s.known.ids| == |s.known.rows|
  {
    if !(1 <= id <= 999_999_999) then (s, Some(InvalidRequest))
    else
      var (disk, removed) := RemoveFolders(s.disk, id, fault);
      if removed then (Service(disk, WithoutStudent(s.known, id)), None) else (s.(disk := disk), Some(Failure))
  }

  // ---- what enrolling keeps -----------------------------------------------------------------

  // Nothing that was moved aside is waiting without a current folder.
  ghost predicate NoOrphans(disk: Disk) {
    forall id: StudentId :: Old(id) in disk ==> Main(id) in disk
  }

  // The current folders agree, except perhaps one student's.
  ghost predicate SameFolders(a: Disk, b: Disk, except: Option<StudentId>) {
    forall i: StudentId :: Some(i) != except ==>
      (Main(i) in a <==> Main(i) in b) && (Main(i) in a ==> a[Main(i)] == b[Main(i)])
  }

  lemma SwapExactly(disk: Disk, id: StudentId, f: Faults)
    requires NoOrphans(disk) && Tmp(id) in disk
    ensures var (after, done) := Swap(disk, id, f);
            && NoOrphans(after)
            && SameFolders(disk, after, if done then Some(id) else None)
            && (done ==> Main(id) in after && after[Main(id)] == disk[Tmp(id)])
  {
  }

  lemma WriteTmpExactly(disk: Disk, id: StudentId, photos: seq<Upload>, f: Faults)
    requires NoOrphans(disk) && |photos| <= ENROLL_MAX_IMAGES
    ensures var (after, ok) := WriteTmp(disk, id, photos, f);
            && NoOrphans(after) && SameFolders(disk, after, None)
            && (ok ==> Tmp(id) in after && after[Tmp(id)] == Written(photos, |photos|))
  {
  }

  lemma TmpIsNobodysFolder(disk: Disk, id: StudentId, fails: bool)
    requires NoOrphans(disk)
    ensures var after := Cleared(disk, Tmp(id), fails); NoOrphans(after) && SameFolders(disk, after, None)
  {
  }

  lemma KeptIsNobodysFolder(disk: Disk, id: StudentId, kept: Folder)
    requires NoOrphans(disk)
    ensures NoOrphans(disk[Tmp(id) := kept]) && SameFolders(disk, disk[Tmp(id) := kept], None)
  {
  }

  lemma SameFoldersOnward(a: Disk, b: Disk, c: Disk, except: Option<StudentId>)
    requires SameFolders(a, b, None) && SameFolders(b, c, except)
    ensures SameFolders(a, c, except)
  {
  }

  /** Storing an enrollment is all or nothing: either the student's folder is exactly the usable photos
      of this upload, analysing to the reported encoding, or no current folder changed. */
  lemma StoreExactly(vision: Vision, disk: Disk, id: StudentId, photos: seq<Upload>, f: Faults)
    requires NoOrphans(disk) && |photos| <= ENROLL_MAX_IMAGES
    ensures var (after, stored) := Store(vision, disk, id, photos, f);
            && NoOrphans(after)
            && (stored.Swapped? ==>
                  && SameFolders(disk, after, Some(id))
                  && Main(id) in after
                  && after[Main(id)] == Usable(vision, Written(photos, |photos|))
                  && Analyze(vision, after[Main(id)]).0 == Some(stored.encoding))
            && (!stored.Swapped? ==> SameFolders(disk, after, None))
  {
    hide Analyze, Keep, Usable, Written, Swap, WriteTmp, Cleared, NoOrphans, SameFolders;
    var (written, ok) := WriteTmp(disk, id, photos, f);
    WriteTmpExactly(disk, id, photos, f);
    if ok && !f.analyze && !f.trim && Analyze(vision, written[Tmp(id)]).0.Some? {
      var uploads := Written(photos, |photos|);
      var kept := Keep(uploads, set n | n in Analyze(vision, uploads).1);
      assert kept == Usable(vision, uploads) by { KeptUploads(vision, photos); }
      assert Analyze(vision, kept) == Analyze(vision, uploads) by {
        UploadsAreInNameOrder(photos, |photos|);
        KeptPhotosAnalyseTheSame(vision, uploads);
      }
      var trimmed := written[Tmp(id) := kept];
      KeptIsNobodysFolder(written, id, kept);
      SwapExactly(trimmed, id, f);
      var (swapped, done) := Swap(trimmed, id, f);
      SameFoldersOnward(disk, written, trimmed, None);
      SameFoldersOnward(disk, trimmed, swapped, if done then Some(id) else None);
      TmpIsNobodysFolder(swapped, id, f.clearTmpAfter);
      if !done {
        SameFoldersOnward(disk, swapped, Cleared(swapped, Tmp(id), f.clearTmpAfter), None);
      }
    } else {
      TmpIsNobodysFolder(written, id, f.clearTmpAfter);
      SameFoldersOnward(disk, written, Cleared(written, Tmp(id), f.clearTmpAfter), None);
    }
  }

  lemma KeptUploads(vision: Vision, photos: seq<Upload>)
    requires |photos| <= ENROLL_MAX_IMAGES
    ensures var uploads := Written(photos, |photos|);
            Analyze(vision, uploads).0.Some? ==>
              Keep(uploads, set n | n in Analyze(vision, uploads).1) == Usable(vision, uploads)
  {
    hide Keep, Usable, VectorsOf;
    var uploads := Written(photos, |photos|);
    UploadsAreInNameOrder(photos, |photos|);
    if Analyze(vision, uploads).0.Some? {
      KeptAreTheUsable(vision, uploads, set n | n in Analyze(vision, uploads).1);
    }
  }

  /** Enrolling keeps index and disk in step, wherever it fails; refused, it changes neither the index
      nor any current folder. */
  lemma EnrollKeepsStep(vision: Vision, s: Service, id: int, photos: seq<Upload>, f: Faults)
    requires InStep(vision, s.known, s.disk) && NoOrphans(s.disk)
    ensures var (after, refusal) := Enroll(vision, s, id, photos, f);
            && InStep(vision, after.known, after.disk) && NoOrphans(after.disk)
            && (refusal.Some? ==> after.known == s.known && SameFolders(s.disk, after.disk, None))
            && (refusal == None ==>
                  && 1 <= id <= 999_999_999
                  && SameFolders(s.disk, after.disk, Some(id))
                  && Main(id) in after.disk
                  && after.disk[Main(id)] == Usable(vision, Written(photos, |photos|))
                  && Lookup(after.known, id).Some?)
  {
    hide Store, Analyze, WithStudent, Lookup, Written, Usable, FirstRefusal;
    if 1 <= id <= 999_999_999 && UploadRefusal(photos) == None {
      StoreExactly(vision, s.disk, id, photos, f);
      var (disk, stored) := Store(vision, s.disk, id, photos, f);
      if stored.Swapped? {
        WithStudentExact(s.known, id, stored.encoding);
      }
    }
  }

  /** Removing a student keeps index and disk in step exactly unless it fails after the current folder
      is already gone while the index still knows the student. */
  lemma UnenrollExactly(vision: Vision, s: Service, id: int, fault: RemovalFault)
    requires InStep(vision, s.known, s.disk)
    ensures var (after, refusal) := Unenroll(s, id, fault);
            InStep(vision, after.known, after.disk)
            <==> !(refusal == Some(Failure) && fault != MainStays && 1 <= id <= 999_999_999 && id in s.known.ids)
  {
    hide Analyze, WithoutStudent;
    if 1 <= id <= 999_999_999 {
      WithoutStudentExact(s.known, id);
      var after := Unenroll(s, id, fault).0;
      assert id in s.known.ids <==> Lookup(s.known, id).Some?;
      if Unenroll(s, id, fault).1.Some? && fault != MainStays {
        assert EncodingOf(vision, after.disk, id) == None;
        if id !in s.known.ids {
          assert forall i :: EncodingOf(vision, after.disk, i) == EncodingOf(vision, s.disk, i);
        }
      }
    }
  }

  lemma UnenrollKeepsOrphans(s: Service, id: int, fault: RemovalFault)
    requires NoOrphans(s.disk) && |s.known.ids| == |s.known.rows|
    requires Unenroll(s, id, fault).1 != Some(Failure) || fault == MainStays
    ensures NoOrphans(Unenroll(s, id, fault).0.disk)
  {
  }

  // ---- what a caller is told, and what is then on disk -----------------------------------------

  ghost predicate IsAcceptable(u: Upload) {
    u.size <= 10 * 1024 * 1024 && u.extension.Some? && u.fits
  }

  ghost predicate AreAcceptable(photos: seq<Upload>) {
    1 <= |photos| <= 8 && forall i :: 0 <= i < |photos| ==> IsAcceptable(photos[i])
  }

  // The first photo that is not acceptable is too large.
  ghost predicate MeetsALargeOne(photos: seq<Upload>) {
    exists i :: && 0 <= i < |photos| && photos[i].size > 10 * 1024 * 1024
                && forall j :: 0 <= j < i ==> IsAcceptable(photos[j])
  }

  lemma {:induction false} FirstRefusalExactly(photos: seq<Upload>)
    ensures FirstRefusal(photos) == if forall i :: 0 <= i < |photos| ==> IsAcceptable(photos[i]) then None
                                    else if MeetsALargeOne(photos) then Some(TooLarge) else Some(InvalidRequest)
  {
    if photos != [] && IsAcceptable(photos[0]) {
      var rest := photos[1..];
      FirstRefusalExactly(rest);
      assert forall i :: 0 <= i < |rest| ==> rest[i] == photos[i + 1];
      if i :| 0 <= i < |rest| && rest[i].size > 10 * 1024 * 1024 && forall j :: 0 <= j < i ==> IsAcceptable(rest[j]) {
        assert photos[i + 1] == rest[i];
        assert forall j :: 0 <= j < i + 1 ==> IsAcceptable(photos[j]) by {
          forall j | 0 <= j < i + 1 ensures IsAcceptable(photos[j]) { if j > 0 { assert IsAcceptable(rest[j - 1]); } }
        }
      }
      if i :| 0 <= i < |photos| && photos[i].size > 10 * 1024 * 1024 && forall j :: 0 <= j < i ==> IsAcceptable(photos[j]) {
        assert i > 0 && rest[i - 1] == photos[i];
      }
    }
  }

  ghost predicate ShowsOneFace(vision: Vision, u: Upload) {
    vision.faces(u.image).Some? && |vision.faces(u.image).value| == 1
  }

  // The file a photo is stored as: its number, its extension, its content.
  ghost function FileOf(u: Upload, i: nat): Entry
    requires i < 10 && u.extension.Some?
  {
    Entry([('0' as int + i) as char] + u.extension.value, true, u.size, u.image)
  }

  // The positions, in order, of exactly the photos with one face.
  ghost predicate AreShown(ks: seq<nat>, vision: Vision, photos: seq<Upload>) {
    && (forall i, j :: 0 <= i < j < |ks| ==> ks[i] < ks[j])
    && (forall i: nat :: i in ks <==> i < |photos| && ShowsOneFace(vision, photos[i]))
  }

  // The files of these photos, and the mean of their faces.
  ghost predicate IsEnrolledFrom(vision: Vision, folder: Folder, encoding: Option<Encoding>, photos: seq<Upload>, ks: seq<nat>)
    requires AreAcceptable(photos) && AreShown(ks, vision, photos)
  {
    assert forall j :: 0 <= j < |ks| ==> ks[j] in ks;
    && ks != []
    && folder == seq(|ks|, j requires 0 <= j < |ks| => FileOf(photos[ks[j]], ks[j]))
    && encoding == Some(vision.mean(seq(|ks|, j requires 0 <= j < |ks| => vision.faces(photos[ks[j]].image).value[0])))
  }

  lemma UploadsShow(vision: Vision, photos: seq<Upload>)
    requires AreAcceptable(photos)
    ensures forall i: nat :: i < |photos| ==>
              Written(photos, |photos|)[i] == FileOf(photos[i], i)
              && (HoldsOneFace(vision, Written(photos, |photos|)[i]) <==> ShowsOneFace(vision, photos[i]))
  {
    forall i: nat | i < |photos|
      ensures Written(photos, |photos|)[i] == FileOf(photos[i], i)
      ensures HoldsOneFace(vision, Written(photos, |photos|)[i]) <==> ShowsOneFace(vision, photos[i])
    {
      assert IsAcceptable(photos[i]);
    }
  }

  lemma WrittenIsEnrolled(vision: Vision, photos: seq<Upload>) returns (ks: seq<nat>)
    requires AreAcceptable(photos)
    ensures AreShown(ks, vision, photos)
    ensures var written := Written(photos, |photos|);
            if ks != [] then IsEnrolledFrom(vision, Usable(vision, written), Analyze(vision, written).0, photos, ks)
            else Analyze(vision, written).0 == None
  {
    hide Usable, VectorsOf, HoldsOneFace, ShowsOneFace, Written;
    var written := Written(photos, |photos|);
    UsableArePicked(vision, written);
    ks :| Picks(ks, vision, written, |written|)
          && Usable(vision, written) == PhotosAt(ks, written) && VectorsOf(vision, written) == FacesAt(ks, vision, written);
    UploadsShow(vision, photos);
    assert |written| == |photos| by { WrittenAll(photos); }
    assert AreShown(ks, vision, photos);
    assert forall j :: 0 <= j < |ks| ==> ks[j] in ks;
    PickedFiles(vision, photos, ks);
    assert Listed(written) == written;
  }

  lemma WrittenAll(photos: seq<Upload>)
    requires |photos| <= ENROLL_MAX_IMAGES
    ensures |Written(photos, |photos|)| == |photos|
  {
  }

  lemma PickedFiles(vision: Vision, photos: seq<Upload>, ks: seq<nat>)
    requires AreAcceptable(photos) && AreShown(ks, vision, photos)
    ensures forall j :: 0 <= j < |ks| ==> ks[j] in ks
    ensures var written := Written(photos, |photos|);
            && (forall i :: i in ks ==> i < |written| && HoldsOneFace(vision, written[i]))
            && PhotosAt(ks, written) == seq(|ks|, j requires 0 <= j < |ks| => FileOf(photos[ks[j]], ks[j]))
            && FacesAt(ks, vision, written) == seq(|ks|, j requires 0 <= j < |ks| => vision.faces(photos[ks[j]].image).value[0])
  {
    UploadsShow(vision, photos);
    hide HoldsOneFace, ShowsOneFace, Written;
    WrittenAll(photos);
    var written := Written(photos, |photos|);
    forall j | 0 <= j < |ks| ensures ks[j] in ks && written[ks[j]] == FileOf(photos[ks[j]], ks[j]) {
      assert ks[j] in ks;
    }
  }
  // Of the folders, only this student's three can differ.
  ghost predicate OnlyFoldersOf(a: Disk, b: Disk, id: StudentId) {
    forall p: Path :: p != Main(id) && p != Tmp(id) && p != Old(id) ==> (p in b <==> p in a) && (p in a ==> b[p] == a[p])
  }

  ghost predicate NoCopies(disk: Disk, id: StudentId) {
    Tmp(id) !in disk && Old(id) !in disk
  }

  // Something fails before the photos have been looked at.
  ghost predicate BreaksEarly(disk: Disk, id: StudentId, photos: seq<Upload>, f: Faults) {
    || f.makeTmp || (f.clearTmp && Tmp(id) in disk)
    || (f.write.Some? && f.write.value < |photos|) || f.analyze
  }

  // Something fails after that: a current folder cannot go aside while a full old one is in the way.
  ghost predicate BreaksLate(disk: Disk, id: StudentId, f: Faults) {
    || f.trim || f.swap
    || (Main(id) in disk && (f.moveAside || (f.clearOld && Old(id) in disk && disk[Old(id)] != [])))
  }

  lemma SwapTidies(disk: Disk, id: StudentId, f: Faults)
    requires Tmp(id) in disk
    ensures var (after, done) := Swap(disk, id, f);
            && OnlyFoldersOf(disk, after, id)
            && (!f.trim ==> (done <==> !BreaksLate(disk, id, f)))
            && (done ==> Tmp(id) !in after && (!f.dropOld ==> Old(id) !in after))
  {
  }

  lemma WriteTidies(disk: Disk, id: StudentId, photos: seq<Upload>, f: Faults)
    requires |photos| <= ENROLL_MAX_IMAGES
    ensures var (after, ok) := WriteTmp(disk, id, photos, f);
            && OnlyFoldersOf(disk, after, id) && (!f.analyze ==> (ok <==> !BreaksEarly(disk, id, photos, f)))
            && (BreaksLate(after, id, f) <==> BreaksLate(disk, id, f))
            && (ok ==> Tmp(id) in after && after[Tmp(id)] == Written(photos, |photos|))
  {
  }

  lemma FoldersOnward(a: Disk, b: Disk, c: Disk, id: StudentId)
    requires OnlyFoldersOf(a, b, id) && OnlyFoldersOf(b, c, id)
    ensures OnlyFoldersOf(a, c, id)
  {
    forall p: Path | p != Main(id) && p != Tmp(id) && p != Old(id) ensures (p in c <==> p in a) && (p in a ==> c[p] == a[p]) {
      assert (p in b <==> p in a) && (p in c <==> p in b);
    }
  }

  lemma ClearingTidies(disk: Disk, id: StudentId, fails: bool)
    ensures OnlyFoldersOf(disk, Cleared(disk, Tmp(id), fails), id) && (!fails ==> Tmp(id) !in Cleared(disk, Tmp(id), fails))
  {
  }

  lemma TrimTidies(disk: Disk, id: StudentId, kept: Folder, f: Faults)
    ensures OnlyFoldersOf(disk, disk[Tmp(id) := kept], id)
    ensures BreaksLate(disk[Tmp(id) := kept], id, f) <==> BreaksLate(disk, id, f)
  {
  }

  lemma AnalyzingFails(disk: Disk, id: StudentId, photos: seq<Upload>, f: Faults)
    ensures f.analyze ==> BreaksEarly(disk, id, photos, f)
    ensures f.trim ==> BreaksLate(disk, id, f)
  {
  }

  lemma StoreTidies(vision: Vision, disk: Disk, id: StudentId, photos: seq<Upload>, f: Faults)
    requires |photos| <= ENROLL_MAX_IMAGES
    ensures var (after, stored) := Store(vision, disk, id, photos, f);
            var encoding := Analyze(vision, Written(photos, |photos|)).0;
            && OnlyFoldersOf(disk, after, id)
            && (stored.Swapped? || !f.clearTmpAfter ==> Tmp(id) !in after)
            && (stored.Swapped? && !f.dropOld ==> Old(id) !in after)
            && (stored.Swapped? ==> encoding == Some(stored.encoding)) && (stored.Unusable? ==> encoding == None)
            && (stored.Broken? <==> BreaksEarly(disk, id, photos, f) || (encoding.Some? && BreaksLate(disk, id, f)))
  {
    AnalyzingFails(disk, id, photos, f);
    hide Analyze, Keep, Written, Swap, WriteTmp, Cleared, OnlyFoldersOf, BreaksEarly, BreaksLate;
    var (written, ok) := WriteTmp(disk, id, photos, f);
    WriteTidies(disk, id, photos, f);
    if ok && !f.analyze && !f.trim && Analyze(vision, written[Tmp(id)]).0.Some? {
      var trimmed := written[Tmp(id) := Keep(written[Tmp(id)], set n | n in Analyze(vision, written[Tmp(id)]).1)];
      TrimTidies(written, id, trimmed[Tmp(id)], f);
      SwapTidies(trimmed, id, f);
      var (swapped, done) := Swap(trimmed, id, f);
      FoldersOnward(disk, written, trimmed, id);
      FoldersOnward(disk, trimmed, swapped, id);
      ClearingTidies(swapped, id, f.clearTmpAfter);
      if !done {
        FoldersOnward(disk, swapped, Cleared(swapped, Tmp(id), f.clearTmpAfter), id);
      }
    } else {
      ClearingTidies(written, id, f.clearTmpAfter);
      FoldersOnward(disk, written, Cleared(written, Tmp(id), f.clearTmpAfter), id);
    }
  }

  lemma RefusalExactly(photos: seq<Upload>)
    ensures UploadRefusal(photos) == if AreAcceptable(photos) then None
                                     else if 1 <= |photos| <= 8 && MeetsALargeOne(photos) then Some(TooLarge) else Some(InvalidRequest)
  {
    FirstRefusalExactly(photos);
  }

  lemma ShownMeans(ks: seq<nat>, vision: Vision, photos: seq<Upload>)
    requires AreShown(ks, vision, photos)
    ensures ks != [] <==> exists i: nat :: i < |photos| && ShowsOneFace(vision, photos[i])
  {
    hide ShowsOneFace;
    if ks != [] { assert ks[0] in ks; }
  }

  /** What a caller is told: what was wrong with the request; a failure exactly when something failed on the way;
      "no face" when, of acceptable photos, none shows exactly one face. Done means that the folder holds exactly
      the photos with one face, the index the mean of these faces, and no copy is left beside them. Nobody else's
      folders are ever touched. */
  lemma EnrollExactly(vision: Vision, s: Service, id: int, photos: seq<Upload>, f: Faults)
    requires InStep(vision, s.known, s.disk) && NoOrphans(s.disk)
    ensures var (after, reply) := Enroll(vision, s, id, photos, f);
            if !(1 <= id <= 999_999_999) || !AreAcceptable(photos) then
              after == s
              && reply == Some(if 1 <= id <= 999_999_999 && 1 <= |photos| <= 8 && MeetsALargeOne(photos) then TooLarge else InvalidRequest)
            else
              && OnlyFoldersOf(s.disk, after.disk, id)
              && reply == (if BreaksEarly(s.disk, id, photos, f) then Some(Failure)
                           else if forall i: nat :: i < |photos| ==> !ShowsOneFace(vision, photos[i]) then Some(NoFace)
                           else if BreaksLate(s.disk, id, f) then Some(Failure) else None)
              && (reply == None || !f.clearTmpAfter ==> Tmp(id) !in after.disk)
              && (reply == None && !f.dropOld ==> NoCopies(after.disk, id))
              && (reply == None ==>
                    exists ks: seq<nat> :: AreShown(ks, vision, photos)
                      && Main(id) in after.disk && IsEnrolledFrom(vision, after.disk[Main(id)], Lookup(after.known, id), photos, ks))
  {
    RefusalExactly(photos);
    assert KnownOk(s.known);
    hide InStep;
    if 1 <= id <= 999_999_999 && AreAcceptable(photos) {
      hide MeetsALargeOne, AreShown, KnownOk, BreaksEarly, BreaksLate, Store, Analyze, WithStudent, Lookup, Written, Usable, FirstRefusal, UploadRefusal, ShowsOneFace, IsEnrolledFrom, OnlyFoldersOf, NoOrphans;
      StoreTidies(vision, s.disk, id, photos, f);
      StoreExactly(vision, s.disk, id, photos, f);
      var ks := WrittenIsEnrolled(vision, photos);
      ShownMeans(ks, vision, photos);
      var (disk, stored) := Store(vision, s.disk, id, photos, f);
      if stored.Swapped? {
        WithStudentExact(s.known, id, stored.encoding);
      }
    }
  }

  // Which removal fails, if the folder it is about is there.
  ghost predicate RemovalBreaks(disk: Disk, id: StudentId, fault: RemovalFault) {
    || (fault == MainStays && Main(id) in disk) || (fault == TmpStays && Tmp(id) in disk) || (fault == OldStays && Old(id) in disk)
  }

  /** Removing a student fails exactly if a folder that is there cannot be removed. Otherwise nothing of the student
      is left, on disk or in the index, and nothing of anybody else's is touched, however it ends. */
  lemma UnenrollErases(vision: Vision, s: Service, id: int, fault: RemovalFault)
    requires InStep(vision, s.known, s.disk)
    ensures var (after, reply) := Unenroll(s, id, fault);
            if !(1 <= id <= 999_999_999) then after == s && reply == Some(InvalidRequest)
            else
              && OnlyFoldersOf(s.disk, after.disk, id)
              && reply == (if RemovalBreaks(s.disk, id, fault) then Some(Failure) else None)
              && (reply.Some? ==> after.known == s.known)
              && (reply == None ==>
                    && Main(id) !in after.disk && NoCopies(after.disk, id)
                    && forall i :: Lookup(after.known, i) == if i == id then None else Lookup(s.known, i))
  {
    hide Analyze, WithoutStudent, Lookup;
    if 1 <= id <= 999_999_999 {
      WithoutStudentExact(s.known, id);
    }
  }

  // ---- runs -----------------------------------------------------------------------------------

  datatype Request =
    | EnrollRequest(id: int, photos: seq<Upload>, faults: Faults)
    | UnenrollRequest(id: int, fault: RemovalFault)
    | ReloadRequest(order: seq<StudentId>)

  predicate Sound(s: Service) {
    |s.known.ids| == |s.known.rows|
  }

  function After(vision: Vision, s: Service, r: Request): (after: Service)
    requires Sound(s)
    ensures Sound(after)
  {
    match r
    case EnrollRequest(id, photos, faults) => Enroll(vision, s, id, photos, faults).0
    case UnenrollRequest(id, fault) => Unenroll(s, id, fault).0
    case ReloadRequest(order) =>
      if forall id :: id in order ==> Main(id) in s.disk then s.(known := LoadFirst(vision, s.disk, order, |order|)) else s
  }

  function AfterAll(vision: Vision, s: Service, rs: seq<Request>): (after: Service)
    requires Sound(s)
    ensures Sound(after)
  {
    if rs == [] then s else After(vision, AfterAll(vision, s, rs[..|rs| - 1]), rs[|rs| - 1])
  }

  // A reload lists the disk as it is; a removal does not fail half-way.
  ghost predicate Orderly(s: Service, r: Request)
    requires Sound(s)
  {
    match r
    case EnrollRequest(_, _, _) => true
    case UnenrollRequest(id, fault) => Unenroll(s, id, fault).1 != Some(Failure) || fault == MainStays
    case ReloadRequest(order) => IsListing(s.disk, order)
  }

  /** After any enrolls, removals and reloads, failing anywhere but half-way through a removal, the
      index in memory is what a reload of the disk would give, with every id once. */
  lemma {:induction false} IndexFollowsDisk(vision: Vision, s: Service, rs: seq<Request>)
    requires Sound(s) && InStep(vision, s.known, s.disk) && NoOrphans(s.disk)
    requires forall k :: 0 <= k < |rs| ==> Orderly(AfterAll(vision, s, rs[..k]), rs[k])
    ensures InStep(vision, AfterAll(vision, s, rs).known, AfterAll(vision, s, rs).disk)
    ensures NoOrphans(AfterAll(vision, s, rs).disk)
  {
    hide Enroll, Unenroll, InStep, NoOrphans, LoadFirst, IsListing;
    if rs != [] {
      var front, last := rs[..|rs| - 1], rs[|rs| - 1];
      var before := AfterAll(vision, s, front);
      forall k | 0 <= k < |front| ensures Orderly(AfterAll(vision, s, front[..k]), front[k]) {
        assert front[..k] == rs[..k];
        assert Orderly(AfterAll(vision, s, rs[..k]), rs[k]);
      }
      IndexFollowsDisk(vision, s, front);
      assert Orderly(before, last);
      match last {
        case EnrollRequest(id, photos, faults) => EnrollKeepsStep(vision, before, id, photos, faults);
        case UnenrollRequest(id, fault) =>
          UnenrollExactly(vision, before, id, fault);
          UnenrollKeepsOrphans(before, id, fault);
        case ReloadRequest(order) =>
          ListedFoldersExist(before.disk, order);
          ReloadIsInStep(vision, before.disk, order);
      }
    }
  }

  lemma ListedFoldersExist(disk: Disk, order: seq<StudentId>)
    requires IsListing(disk, order)
    ensures forall id :: id in order ==> Main(id) in disk
  {
  }

  // A library that finds one face with the encoding [0.0] in every image.
  const SIMPLE := Vision((i: Image) => Some([[0.0]]), (v: seq<Encoding>) => [0.0], (a: Encoding, b: Encoding) => 0.0)
  const PHOTO := Entry("0.jpg", true, 1, 0)
  const LEFTOVER: Service := Service(map[Main(1) := [PHOTO], Tmp(1) := []], Known([1], [[0.0]]))

  /** The exception is real: the folder is gone, the leftover cannot be removed, and the index keeps
      recognising the student until the next reload. */
  lemma HalfRemovedStudentIsStillKnown()
    ensures InStep(SIMPLE, LEFTOVER.known, LEFTOVER.disk)
    ensures var (after, refusal) := Unenroll(LEFTOVER, 1, TmpStays);
            && refusal == Some(Failure) && Main(1) !in after.disk
            && Lookup(after.known, 1).Some? && !InStep(SIMPLE, after.known, after.disk)
  {
  }
}
