/** The recognition service as it runs: loops over photos and folders, and the swap step by step, each
    proved equal to its description in FaceIndex and FaceFolders. */
module FaceService {
  import opened Options
  import opened FaceIndex
  import opened FaceFolders

  method AnalyzeStudentDir(vision: Vision, folder: Folder) returns (encoding: Option<Encoding>, usable: seq<string>)
    ensures (encoding, usable) == Analyze(vision, folder)
  {
    var vectors: seq<Encoding> := [];
    usable := [];
    var photos := if |folder| > MAX_IMAGES_PER_STUDENT then folder[..MAX_IMAGES_PER_STUDENT] else folder;
    assert photos == Listed(folder);
    for k := 0 to |photos|
      invariant vectors == VectorsOf(vision, photos[..k]) && usable == NamesOf(Usable(vision, photos[..k]))
    {
      var photo := photos[k];
      assert photos[..k + 1][..k] == photos[..k];
      if !photo.isImage || photo.size > MAX_ENROLL_IMAGE_BYTES {
        continue;
      }
      var found := vision.faces(photo.image);
      if found == None || |found.value| != 1 {
        continue;
      }
      vectors := vectors + [found.value[0]];
      usable := usable + [photo.name];
    }
    assert photos[..|photos|] == photos;
    if vectors == [] {
      return None, [];
    }
    encoding := Some(vision.mean(vectors));
  }

  method LoadKnownFaces(vision: Vision, disk: Disk, order: seq<StudentId>) returns (known: Known)
    requires IsListing(disk, order)
    ensures known == LoadFirst(vision, disk, order, |order|)
  {
    hide Analyze;
    var ids: seq<StudentId>, encodings: seq<Encoding> := [], [];
    for k := 0 to |order|
      invariant Known(ids, encodings) == LoadFirst(vision, disk, order, k)
    {
      var encoding, _ := AnalyzeStudentDir(vision, disk[Main(order[k])]);
      if encoding.Some? {
        ids, encodings := ids + [order[k]], encodings + [encoding.value];
      }
    }
    known := Known(ids, encodings);
  }

  class RecognitionService {
    var disk: Disk
    var known: Known

    function Contents(): Service
      reads this
    {
      Service(disk, known)
    }

    constructor (vision: Vision, disk: Disk, order: seq<StudentId>)
      requires IsListing(disk, order)
      ensures Contents() == Service(disk, LoadFirst(vision, disk, order, |order|))
      ensures InStep(vision, known, disk)
    {
      var loaded := LoadKnownFaces(vision, disk, order);
      this.disk, known := disk, loaded;
      ReloadIsInStep(vision, disk, order);
    }

    method ReloadKnownFaces(vision: Vision, order: seq<StudentId>) returns (students: nat)
      requires IsListing(disk, order)
      modifies this`known
      ensures Contents() == Service(old(disk), LoadFirst(vision, old(disk), order, |order|)) && students == |known.ids|
      ensures InStep(vision, known, disk)
    {
      known := LoadKnownFaces(vision, disk, order);
      ReloadIsInStep(vision, disk, order);
      students := |known.ids|;
    }

    method RemoveTree(path: Path, fails: bool)
      modifies this`disk
      ensures disk == Cleared(old(disk), path, fails)
    {
      if !fails {
        disk := disk - {path};
      }
    }

    // The photos one by one into a fresh folder.
    method WritePhotos(id: StudentId, photos: seq<Upload>, f: Faults) returns (ok: bool)
      requires |photos| <= ENROLL_MAX_IMAGES
      modifies this`disk
      ensures (disk, ok) == WriteTmp(old(disk), id, photos, f)
    {
      RemoveTree(Tmp(id), f.clearTmp);
      if Tmp(id) in disk || f.makeTmp {
        return false;
      }
      ghost var cleared := disk;
      disk := disk[Tmp(id) := []];
      assert Written(photos, 0) == [];
      for k := 0 to |photos|
        invariant disk == cleared[Tmp(id) := Written(photos, k)]
        invariant f.write.Some? ==> k <= f.write.value
      {
        if f.write == Some(k) {
          return false;
        }
        assert Written(photos, k) + [FileFor(photos, k)] == Written(photos, k + 1);
        disk := disk[Tmp(id) := disk[Tmp(id)] + [FileFor(photos, k)]];
      }
      return true;
    }

    method TrimPhotos(id: StudentId, keep: set<string>)
      requires Tmp(id) in disk
      modifies this`disk
      ensures disk == old(disk)[Tmp(id) := Keep(old(disk)[Tmp(id)], keep)]
    {
      var files := disk[Tmp(id)];
      var kept: Folder := [];
      for k := 0 to |files|
        invariant kept == Keep(files[..k], keep) && disk == old(disk)
      {
        assert files[..k + 1][..k] == files[..k];
        if files[k].name in keep {
          kept := kept + [files[k]];
        }
      }
      assert files[..|files|] == files;
      disk := disk[Tmp(id) := kept];
    }

    method Rename(from': Path, to: Path)
      requires from' in disk && from' != to
      modifies this`disk
      ensures disk == old(disk)[to := old(disk)[from']] - {from'}
    {
      disk := disk[to := disk[from']] - {from'};
    }

    method SwapFolders(id: StudentId, f: Faults) returns (done: bool)
      requires Tmp(id) in disk
      modifies this`disk
      ensures (disk, done) == Swap(old(disk), id, f)
    {
      RemoveTree(Old(id), f.clearOld);
      if Main(id) in disk {
        if f.moveAside || (Old(id) in disk && disk[Old(id)] != []) {
          return false;
        }
        Rename(Main(id), Old(id));
      }
      if f.swap {
        if Old(id) in disk && Main(id) !in disk {
          Rename(Old(id), Main(id));
        }
        return false;
      }
      Rename(Tmp(id), Main(id));
      RemoveTree(Old(id), f.dropOld);
      return true;
    }

    method Enroll(vision: Vision, id: int, photos: seq<Upload>, f: Faults) returns (refusal: Option<Refusal>)
      requires |known.ids| == |known.rows|
      modifies this
      ensures (Contents(), refusal) == FaceFolders.Enroll(vision, old(Contents()), id, photos, f)
    {
      hide Analyze, Swap, WriteTmp, Keep, WithStudent, UploadRefusal;
      if !(1 <= id <= 999_999_999) {
        return Some(InvalidRequest);
      }
      var refused := UploadRefusal(photos);
      if refused.Some? {
        return refused;
      }
      assert |photos| <= ENROLL_MAX_IMAGES by { FewPhotos(photos); }
      var ok := WritePhotos(id, photos, f);
      if !ok || f.analyze {
        RemoveTree(Tmp(id), f.clearTmpAfter);
        return Some(Failure);
      }
      assert Tmp(id) in disk by { TmpWritten(old(disk), id, photos, f); }
      var encoding, usable := AnalyzeStudentDir(vision, disk[Tmp(id)]);
      if encoding == None {
        RemoveTree(Tmp(id), f.clearTmpAfter);
        return Some(NoFace);
      }
      if f.trim {
        RemoveTree(Tmp(id), f.clearTmpAfter);
        return Some(Failure);
      }
      TrimPhotos(id, set n | n in usable);
      var done := SwapFolders(id, f);
      if !done {
        RemoveTree(Tmp(id), f.clearTmpAfter);
        return Some(Failure);
      }
      known := WithStudent(known, id, encoding.value);
      return None;
    }

    method Unenroll(id: int, fault: RemovalFault) returns (refusal: Option<Refusal>)
      requires |known.ids| == |known.rows|
      modifies this
      ensures (Contents(), refusal) == FaceFolders.Unenroll(old(Contents()), id, fault)
    {
      if !(1 <= id <= 999_999_999) {
        return Some(InvalidRequest);
      }
      var paths, faults := [Main(id), Tmp(id), Old(id)], [MainStays, TmpStays, OldStays];
      for k := 0 to 3
        invariant known == old(known)
        invariant disk == old(disk) - FirstPaths(id, k)
        invariant forall j :: 0 <= j < k ==> !(paths[j] in old(disk) && fault == faults[j])
      {
        if paths[k] in disk {
          if fault == faults[k] {
            return Some(Failure);
          }
          disk := disk - {paths[k]};
        }
      }
      assert paths[0] == Main(id) && paths[1] == Tmp(id) && paths[2] == Old(id);
      known := WithoutStudent(known, id);
      return None;
    }
  }

  function FirstPaths(id: StudentId, k: nat): set<Path> {
    if k == 0 then {} else if k == 1 then {Main(id)} else if k == 2 then {Main(id), Tmp(id)} else {Main(id), Tmp(id), Old(id)}
  }

  lemma FewPhotos(photos: seq<Upload>)
    requires UploadRefusal(photos) == None
    ensures |photos| <= ENROLL_MAX_IMAGES
  {
  }

  lemma TmpWritten(disk: Disk, id: StudentId, photos: seq<Upload>, f: Faults)
    requires |photos| <= ENROLL_MAX_IMAGES && WriteTmp(disk, id, photos, f).1
    ensures Tmp(id) in WriteTmp(disk, id, photos, f).0
  {
  }
}
