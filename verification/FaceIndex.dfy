/** The recognition service: photo folders on disk, one averaged encoding per student in memory, and
    the folder swap that keeps the two in step. */
module FaceIndex {
  import opened Options

  type Encoding = seq<real>
  type Image = int
  type StudentId = x: int | 1 <= x <= 999_999_999 witness 1

  const MAX_ENROLL_IMAGE_BYTES := 10 * 1024 * 1024
  const MAX_IMAGES_PER_STUDENT := 20
  const ENROLL_MAX_IMAGES := 8

  // The face library: the faces found in an image (None: it cannot be read), the average, the distance.
  datatype Vision = Vision(
    faces: Image -> Option<seq<Encoding>>,
    mean: seq<Encoding> -> Encoding,
    dist: (Encoding, Encoding) -> real)

  // `isImage`: a regular file with an image extension.
  datatype Entry = Entry(name: string, isImage: bool, size: nat, image: Image)

  // A folder as its sorted listing.
  type Folder = seq<Entry>

  // ---- file names --------------------------------------------------------------

  predicate Before(a: string, b: string) {
    b != "" && (a == "" || a[0] < b[0] || (a[0] == b[0] && Before(a[1..], b[1..])))
  }

  ghost predicate InNameOrder(folder: Folder) {
    forall i, j :: 0 <= i < j < |folder| ==> Before(folder[i].name, folder[j].name)
  }

  lemma {:induction false} NotBeforeItself(a: string)
    ensures !Before(a, a)
  {
    if a != "" {
      NotBeforeItself(a[1..]);
    }
  }

  // ---- analysing a folder --------------------------------------------------------

  predicate IsUsable(vision: Vision, e: Entry) {
    && e.isImage && e.size <= MAX_ENROLL_IMAGE_BYTES
    && vision.faces(e.image).Some? && |vision.faces(e.image).value| == 1
  }

  function Usable(vision: Vision, folder: Folder): Folder {
    if folder == [] then []
    else
      var last := folder[|folder| - 1];
      Usable(vision, folder[..|folder| - 1]) + (if IsUsable(vision, last) then [last] else [])
  }

  function VectorsOf(vision: Vision, folder: Folder): (vectors: seq<Encoding>)
    ensures |vectors| == |Usable(vision, folder)|
  {
    if folder == [] then []
    else
      var last := folder[|folder| - 1];
      VectorsOf(vision, folder[..|folder| - 1]) + (if IsUsable(vision, last) then [vision.faces(last.image).value[0]] else [])
  }

  function Listed(folder: Folder): Folder {
    if |folder| <= MAX_IMAGES_PER_STUDENT then folder else folder[..MAX_IMAGES_PER_STUDENT]
  }

  function NamesOf(folder: Folder): seq<string> {
    seq(|folder|, i requires 0 <= i < |folder| => folder[i].name)
  }

  function Analyze(vision: Vision, folder: Folder): (Option<Encoding>, seq<string>) {
    var vectors := VectorsOf(vision, Listed(folder));
    if vectors == [] then (None, []) else (Some(vision.mean(vectors)), NamesOf(Usable(vision, Listed(folder))))
  }

  // A readable image of at most 10 MB in which exactly one face is found.
  ghost predicate HoldsOneFace(vision: Vision, e: Entry) {
    && e.isImage && e.size <= 10 * 1024 * 1024
    && vision.faces(e.image).Some? && |vision.faces(e.image).value| == 1
  }

  // The positions, in order, of exactly these photos among the first `n` of the listing.
  ghost predicate Picks(ks: seq<nat>, vision: Vision, folder: Folder, n: nat) {
    && (forall i, j :: 0 <= i < j < |ks| ==> ks[i] < ks[j])
    && (forall i: nat :: i in ks <==> i < |folder| && i < n && HoldsOneFace(vision, folder[i]))
  }

  ghost function PhotosAt(ks: seq<nat>, folder: Folder): (photos: Folder)
    requires forall i :: i in ks ==> i < |folder|
  {
    assert forall j :: 0 <= j < |ks| ==> ks[j] in ks;
    seq(|ks|, j requires 0 <= j < |ks| => folder[ks[j]])
  }

  ghost function FacesAt(ks: seq<nat>, vision: Vision, folder: Folder): (vectors: seq<Encoding>)
    requires forall i :: i in ks ==> i < |folder| && HoldsOneFace(vision, folder[i])
  {
    assert forall j :: 0 <= j < |ks| ==> ks[j] in ks && HoldsOneFace(vision, folder[ks[j]]);
    seq(|ks|, j requires 0 <= j < |ks| => vision.faces(folder[ks[j]].image).value[0])
  }

  lemma PicksOneMore(ks: seq<nat>, vision: Vision, folder: Folder)
    requires folder != [] && Picks(ks, vision, folder[..|folder| - 1], |folder| - 1)
    ensures Picks(if HoldsOneFace(vision, folder[|folder| - 1]) then ks + [|folder| - 1] else ks, vision, folder, |folder|)
  {
    hide HoldsOneFace;
    var last := |folder| - 1;
    assert forall i: nat :: i < last ==> folder[..last][i] == folder[i];
    assert forall j :: 0 <= j < |ks| ==> ks[j] in ks;
    if HoldsOneFace(vision, folder[last]) {
      assert forall i: nat :: i in ks + [last] <==> i in ks || i == last;
    }
  }

  lemma PhotosOneMore(ks: seq<nat>, vision: Vision, folder: Folder)
    requires folder != [] && Picks(ks, vision, folder[..|folder| - 1], |folder| - 1)
    ensures (forall i :: i in ks ==> i < |folder| - 1) && PhotosAt(ks, folder) == PhotosAt(ks, folder[..|folder| - 1])
    ensures (forall i :: i in ks ==> HoldsOneFace(vision, folder[i]))
            && FacesAt(ks, vision, folder) == FacesAt(ks, vision, folder[..|folder| - 1])
  {
    hide HoldsOneFace;
    var last := |folder| - 1;
    assert forall i: nat :: i < last ==> folder[..last][i] == folder[i];
    assert forall j :: 0 <= j < |ks| ==> ks[j] in ks;
  }

  lemma {:induction false} UsableArePicked(vision: Vision, folder: Folder)
    ensures exists ks: seq<nat> :: Picks(ks, vision, folder, |folder|)
              && Usable(vision, folder) == PhotosAt(ks, folder) && VectorsOf(vision, folder) == FacesAt(ks, vision, folder)
  {
    if folder == [] {
      assert Picks([], vision, folder, 0);
    } else {
      var last := |folder| - 1;
      UsableArePicked(vision, folder[..last]);
      var ks: seq<nat> :| Picks(ks, vision, folder[..last], last)
        && Usable(vision, folder[..last]) == PhotosAt(ks, folder[..last])
        && VectorsOf(vision, folder[..last]) == FacesAt(ks, vision, folder[..last]);
      PicksOneMore(ks, vision, folder);
      PhotosOneMore(ks, vision, folder);
      hide Picks;
      if HoldsOneFace(vision, folder[last]) {
        PickedAfter(ks, last, vision, folder);
      }
    }
  }

  lemma PickedAfter(ks: seq<nat>, last: nat, vision: Vision, folder: Folder)
    requires last < |folder| && HoldsOneFace(vision, folder[last])
    requires forall i :: i in ks ==> i < |folder| && HoldsOneFace(vision, folder[i])
    ensures forall i :: i in ks + [last] ==> i < |folder| && HoldsOneFace(vision, folder[i])
    ensures PhotosAt(ks + [last], folder) == PhotosAt(ks, folder) + [folder[last]]
    ensures FacesAt(ks + [last], vision, folder) == FacesAt(ks, vision, folder) + [vision.faces(folder[last].image).value[0]]
  {
    hide HoldsOneFace;
    assert forall i :: i in ks + [last] <==> i in ks || i == last;
  }

  /** A student's encoding is the mean of the faces of exactly those photos, among the first twenty by name, that
      hold exactly one; without such a photo there is none. */
  lemma AnalyzeExactly(vision: Vision, folder: Folder)
    ensures exists ks: seq<nat> :: && Picks(ks, vision, folder, 20)
              && Analyze(vision, folder).0 == (if ks == [] then None else Some(vision.mean(FacesAt(ks, vision, folder))))
              && Analyze(vision, folder).1 == NamesOf(PhotosAt(ks, folder))
  {
    hide Usable, VectorsOf, HoldsOneFace;
    var listed := Listed(folder);
    UsableArePicked(vision, listed);
    var ks: seq<nat> :| Picks(ks, vision, listed, |listed|)
      && Usable(vision, listed) == PhotosAt(ks, listed) && VectorsOf(vision, listed) == FacesAt(ks, vision, listed);
    assert forall i: nat :: i < |listed| ==> listed[i] == folder[i];
    assert Picks(ks, vision, folder, 20);
    assert forall j :: 0 <= j < |ks| ==> ks[j] in ks;
    assert PhotosAt(ks, listed) == PhotosAt(ks, folder) && FacesAt(ks, vision, listed) == FacesAt(ks, vision, folder);
  }

  // The folder once every file not named in `keep` has been removed.
  function Keep(folder: Folder, keep: set<string>): Folder {
    if folder == [] then []
    else
      var last := folder[|folder| - 1];
      Keep(folder[..|folder| - 1], keep) + (if last.name in keep then [last] else [])
  }

  lemma {:induction false} KeepNone(folder: Folder, keep: set<string>)
    requires forall e :: e in folder ==> e.name !in keep
    ensures Keep(folder, keep) == []
  {
    if folder != [] {
      KeepNone(folder[..|folder| - 1], keep);
    }
  }

  lemma {:induction false} KeepParts(a: Folder, b: Folder, keep: set<string>)
    ensures Keep(a + b, keep) == Keep(a, keep) + Keep(b, keep)
  {
    if b == [] {
      assert a + b == a;
    } else {
      assert (a + b)[..|a + b| - 1] == a + b[..|b| - 1];
      KeepParts(a, b[..|b| - 1], keep);
    }
  }

  lemma {:induction false} UsableIsPart(vision: Vision, folder: Folder)
    ensures |Usable(vision, folder)| <= |folder|
    ensures forall e :: e in Usable(vision, folder) <==> e in folder && IsUsable(vision, e)
  {
    if folder != [] {
      UsableIsPart(vision, folder[..|folder| - 1]);
      assert folder == folder[..|folder| - 1] + [folder[|folder| - 1]];
    }
  }

  // Keeping the usable names keeps exactly the usable files.
  lemma {:induction false} KeepUsable(vision: Vision, folder: Folder, keep: set<string>)
    requires forall e :: e in folder ==> (e.name in keep <==> IsUsable(vision, e))
    ensures Keep(folder, keep) == Usable(vision, folder)
  {
    if folder != [] {
      var front := folder[..|folder| - 1];
      assert forall e :: e in front ==> e in folder;
      KeepUsable(vision, front, keep);
    }
  }

  lemma {:induction false} UsableAgain(vision: Vision, folder: Folder)
    ensures Usable(vision, Usable(vision, folder)) == Usable(vision, folder)
    ensures VectorsOf(vision, Usable(vision, folder)) == VectorsOf(vision, folder)
  {
    if folder != [] {
      var front, last := folder[..|folder| - 1], folder[|folder| - 1];
      UsableAgain(vision, front);
      var before, all := Usable(vision, front), Usable(vision, folder);
      if IsUsable(vision, last) {
        assert all[..|all| - 1] == before && all[|all| - 1] == last;
      } else {
        assert all == before;
      }
    }
  }

  lemma NamesInOrderDiffer(folder: Folder, i: nat, j: nat)
    requires InNameOrder(folder) && i < |folder| && j < |folder| && folder[i].name == folder[j].name
    ensures i == j
  {
    NotBeforeItself(folder[i].name);
  }

  lemma NamesOfUsable(vision: Vision, folder: Folder, keep: set<string>, e: Entry)
    requires InNameOrder(folder) && e in folder
    requires keep == set n | n in NamesOf(Usable(vision, Listed(folder)))
    ensures e.name in keep <==> e in Listed(folder) && IsUsable(vision, e)
  {
    var usable := Usable(vision, Listed(folder));
    UsableIsPart(vision, Listed(folder));
    if e.name in keep {
      var k :| 0 <= k < |usable| && NamesOf(usable)[k] == e.name;
      assert usable[k] in Listed(folder);
      var i :| 0 <= i < |folder| && folder[i] == e;
      var j :| 0 <= j < |Listed(folder)| && Listed(folder)[j] == usable[k];
      NamesInOrderDiffer(folder, i, j);
    }
    if e in Listed(folder) && IsUsable(vision, e) {
      var k :| 0 <= k < |usable| && usable[k] == e;
      assert NamesOf(usable)[k] == e.name;
    }
  }

  lemma BeyondTheListing(folder: Folder, e: Entry)
    requires InNameOrder(folder) && |folder| > MAX_IMAGES_PER_STUDENT && e in folder[MAX_IMAGES_PER_STUDENT..]
    ensures e !in Listed(folder)
  {
    var i :| 0 <= i < |folder| - MAX_IMAGES_PER_STUDENT && folder[MAX_IMAGES_PER_STUDENT..][i] == e;
    if e in Listed(folder) {
      var j :| 0 <= j < MAX_IMAGES_PER_STUDENT && Listed(folder)[j] == e;
      NamesInOrderDiffer(folder, MAX_IMAGES_PER_STUDENT + i, j);
      assert false;
    }
  }

  lemma KeptAreTheUsable(vision: Vision, folder: Folder, keep: set<string>)
    requires InNameOrder(folder) && keep == set n | n in NamesOf(Usable(vision, Listed(folder)))
    ensures Keep(folder, keep) == Usable(vision, Listed(folder))
  {
    hide InNameOrder, NamesOf, IsUsable, Keep;
    var listed := Listed(folder);
    var rest := folder[|listed|..];
    assert folder == listed + rest;
    forall e | e in listed ensures e.name in keep <==> IsUsable(vision, e) {
      NamesOfUsable(vision, folder, keep, e);
    }
    forall e | e in rest ensures e.name !in keep {
      NamesOfUsable(vision, folder, keep, e);
      BeyondTheListing(folder, e);
    }
    KeepParts(listed, rest, keep);
    KeepNone(rest, keep);
    KeepUsable(vision, listed, keep);
    assert Usable(vision, listed) + [] == Usable(vision, listed);
  }

  lemma UsableAnalyseTheSame(vision: Vision, folder: Folder)
    ensures Analyze(vision, Usable(vision, Listed(folder))) == Analyze(vision, folder)
  {
    hide Usable, VectorsOf, NamesOf;
    var listed := Listed(folder);
    UsableIsPart(vision, listed);
    UsableAgain(vision, listed);
    assert Listed(Usable(vision, listed)) == Usable(vision, listed);
  }

  /** Removing every photo that was not used changes nothing: the kept photos analyse to the same
      encoding and the same names, however many files there were. */
  lemma KeptPhotosAnalyseTheSame(vision: Vision, folder: Folder)
    requires InNameOrder(folder) && Analyze(vision, folder).0.Some?
    ensures var keep := set n | n in Analyze(vision, folder).1;
            Analyze(vision, Keep(folder, keep)) == Analyze(vision, folder)
  {
    hide Usable, VectorsOf, NamesOf, InNameOrder, Keep;
    KeptAreTheUsable(vision, folder, set n | n in Analyze(vision, folder).1);
    UsableAnalyseTheSame(vision, folder);
  }

  // ---- the index in memory -----------------------------------------------------------

  datatype Known = Known(ids: seq<StudentId>, rows: seq<Encoding>)

  ghost predicate KnownOk(known: Known) {
    |known.ids| == |known.rows| && AllDiffer(known.ids)
  }

  ghost predicate AllDiffer(ids: seq<StudentId>) {
    forall i, j :: 0 <= i < j < |ids| ==> ids[i] != ids[j]
  }

  lemma AppendDiffers(ids: seq<StudentId>, id: StudentId)
    requires AllDiffer(ids) && id !in ids
    ensures AllDiffer(ids + [id])
  {
  }

  lemma FrontDiffers(ids: seq<StudentId>)
    requires AllDiffer(ids) && ids != []
    ensures AllDiffer(ids[..|ids| - 1]) && ids[|ids| - 1] !in ids[..|ids| - 1]
  {
  }

  function IndexOf(ids: seq<StudentId>, id: StudentId): (i: nat)
    requires id in ids
    ensures i < |ids| && ids[i] == id && id !in ids[..i]
  {
    if ids[0] == id then 0 else 1 + IndexOf(ids[1..], id)
  }

  function Lookup(known: Known, id: StudentId): Option<Encoding> {
    if id in known.ids && IndexOf(known.ids, id) < |known.rows| then Some(known.rows[IndexOf(known.ids, id)]) else None
  }

  function Without(ids: seq<StudentId>, id: StudentId): seq<StudentId> {
    if ids == [] then []
    else
      var last := ids[|ids| - 1];
      Without(ids[..|ids| - 1], id) + (if last != id then [last] else [])
  }

  function RowsFor(known: Known, ids: seq<StudentId>): seq<Encoding>
    requires forall i :: i in ids ==> i in known.ids && |known.ids| == |known.rows|
  {
    seq(|ids|, k requires 0 <= k < |ids| => known.rows[IndexOf(known.ids, ids[k])])
  }

  lemma {:induction false} WithoutIsPart(ids: seq<StudentId>, id: StudentId)
    ensures forall i :: i in Without(ids, id) <==> i in ids && i != id
  {
    if ids != [] {
      WithoutIsPart(ids[..|ids| - 1], id);
      assert ids == ids[..|ids| - 1] + [ids[|ids| - 1]];
    }
  }

  lemma {:induction false} WithoutDiffers(ids: seq<StudentId>, id: StudentId)
    requires AllDiffer(ids)
    ensures AllDiffer(Without(ids, id))
  {
    if ids != [] {
      hide AllDiffer;
      var front, last := ids[..|ids| - 1], ids[|ids| - 1];
      FrontDiffers(ids);
      WithoutDiffers(front, id);
      WithoutIsPart(front, id);
      if last != id {
        AppendDiffers(Without(front, id), last);
      }
    }
  }

  function WithoutStudent(known: Known, id: StudentId): Known
    requires |known.ids| == |known.rows|
  {
    WithoutIsPart(known.ids, id);
    var ids := Without(known.ids, id);
    Known(ids, RowsFor(known, ids))
  }

  function WithStudent(known: Known, id: StudentId, row: Encoding): Known
    requires |known.ids| == |known.rows|
  {
    var others := WithoutStudent(known, id);
    Known(others.ids + [id], others.rows + [row])
  }

  lemma LookupAt(known: Known, k: nat)
    requires KnownOk(known) && k < |known.ids|
    ensures Lookup(known, known.ids[k]) == Some(known.rows[k])
  {
  }

  lemma WithoutStudentExact(known: Known, id: StudentId)
    requires KnownOk(known)
    ensures var after := WithoutStudent(known, id);
            KnownOk(after) && forall i :: Lookup(after, i) == if i == id then None else Lookup(known, i)
  {
    hide Without, AllDiffer;
    WithoutIsPart(known.ids, id);
    WithoutDiffers(known.ids, id);
    var after := WithoutStudent(known, id);
    forall i ensures Lookup(after, i) == if i == id then None else Lookup(known, i) {
      if i in after.ids {
        LookupAt(after, IndexOf(after.ids, i));
      }
    }
  }

  lemma NobodyThere(known: Known, id: StudentId)
    requires KnownOk(known)
    ensures id !in WithoutStudent(known, id).ids
  {
    WithoutIsPart(known.ids, id);
  }

  lemma WithStudentExact(known: Known, id: StudentId, row: Encoding)
    requires KnownOk(known)
    ensures var after := WithStudent(known, id, row);
            KnownOk(after) && forall i :: Lookup(after, i) == if i == id then Some(row) else Lookup(known, i)
  {
    hide AllDiffer, WithoutStudent;
    WithoutStudentExact(known, id);
    assert id !in WithoutStudent(known, id).ids by { NobodyThere(known, id); }
    AppendDiffers(WithoutStudent(known, id).ids, id);
    var others, after := WithoutStudent(known, id), WithStudent(known, id, row);
    forall i ensures Lookup(after, i) == if i == id then Some(row) else Lookup(known, i) {
      if i == id {
        assert after.ids[|others.ids|] == id;
        LookupAt(after, |others.ids|);
      } else if i in others.ids {
        var k := IndexOf(others.ids, i);
        assert after.ids[k] == i;
        LookupAt(after, k);
        LookupAt(others, k);
      } else {
        assert i !in after.ids;
      }
    }
  }

  // ---- matching a face ------------------------------------------------------------------

  function Distances(vision: Vision, known: Known, face: Encoding): seq<real> {
    seq(|known.rows|, k requires 0 <= k < |known.rows| => vision.dist(known.rows[k], face))
  }

  // What argsort returns: every index once, nearest first; equal distances in any order.
  ghost predicate IsArgsort(order: seq<nat>, distances: seq<real>) {
    && |order| == |distances|
    && (forall k :: 0 <= k < |order| ==> order[k] < |distances|)
    && (forall j, k :: 0 <= j < k < |order| ==> order[j] != order[k] && distances[order[j]] <= distances[order[k]])
    && (forall i :: 0 <= i < |distances| ==> i in order)
  }

  datatype Match = Match(student: Option<StudentId>, distance: Option<real>, margin: Option<real>)

  function MatchFace(vision: Vision, known: Known, face: Encoding, order: seq<nat>): Match
    requires |known.ids| == |known.rows|
    requires |order| == |known.ids| && forall k :: 0 <= k < |order| ==> order[k] < |known.ids|
  {
    if known.ids == [] then Match(None, None, None)
    else
      var distances := Distances(vision, known, face);
      var best := distances[order[0]];
      Match(Some(known.ids[order[0]]), Some(best),
            if |order| > 1 then Some(distances[order[1]] - best) else None)
  }

  /** The match is a nearest student, and the margin is by how much the nearest other student is
      further away: never negative, and absent exactly when nobody else is enrolled. */
  lemma MatchIsNearest(vision: Vision, known: Known, face: Encoding, order: seq<nat>)
    requires KnownOk(known) && known.ids != [] && IsArgsort(order, Distances(vision, known, face))
    ensures var m := MatchFace(vision, known, face, order);
            && m.student.Some? && m.student.value in known.ids
            && m.distance == Some(vision.dist(Lookup(known, m.student.value).value, face))
            && (forall id :: id in known.ids ==> m.distance.value <= vision.dist(Lookup(known, id).value, face))
            && (m.margin == None <==> |known.ids| == 1)
            && (m.margin.Some? ==>
                  && m.margin.value >= 0.0
                  && (forall id :: id in known.ids && id != m.student.value ==>
                        m.distance.value + m.margin.value <= vision.dist(Lookup(known, id).value, face))
                  && exists id :: id in known.ids && id != m.student.value
                       && m.distance.value + m.margin.value == vision.dist(Lookup(known, id).value, face))
  {
    var m, d := MatchFace(vision, known, face, order), Distances(vision, known, face);
    LookupAt(known, order[0]);
    forall id | id in known.ids
      ensures m.distance.value <= vision.dist(Lookup(known, id).value, face)
      ensures m.margin.Some? && id != m.student.value ==> m.distance.value + m.margin.value <= vision.dist(Lookup(known, id).value, face)
    {
      var i := IndexOf(known.ids, id);
      LookupAt(known, i);
      assert d[i] == vision.dist(known.rows[i], face);
      assert i in order;
      var k :| 0 <= k < |order| && order[k] == i;
    }
    if |order| > 1 {
      LookupAt(known, order[1]);
      assert known.ids[order[1]] in known.ids;
    }
  }
}
