/**
 * The academic screen's subject list and its two forms (add and edit). The
 * backend requests are effects whose outcome is passed in: `requestOk` says
 * whether the request went through, and `ReceiveSubjects` takes the payload a
 * fetch returned. What remains is a list of records updated in place.
 */
module Academic {
  import opened Wrappers
  import opened Text

  /** A subject as the backend returns it. */
  datatype Subject = Subject(id: int, name: string, difficulty: string, progress: int)

  /** The body `addSubject` posts: the backend assigns the id. */
  datatype SubjectDraft = SubjectDraft(name: string, difficulty: string, progress: int)

  /** What `saveEdit` sends: nothing, the found subject with its new fields, or (no subject has the id) only the two fields. */
  datatype EditRequest = NoRequest | Put(subject: Subject) | PutFieldsOnly(name: string, difficulty: string)

  /** What a fetch of the subject list delivered. */
  datatype FetchResult = ArrayPayload(items: seq<Subject>) | OtherPayload | RequestFailed

  const DefaultDifficulty: string := "Easy"
  /** Tapping a subject's name adds 10; tapping a day dot adds 20. */
  const DefaultStep: int := 10
  const DotStep: int := 20
  const MaxProgress: int := 100
  const DotCount: nat := 5

  /** `Math.min(progress + step, 100)`. */
  function ClampedProgress(progress: int, step: int): (r: int)
    ensures r <= MaxProgress && r <= progress + step
    ensures r == progress + step || r == MaxProgress
    ensures r < MaxProgress ==> r == progress + step
  {
    if progress + step < MaxProgress then progress + step else MaxProgress
  }

  /**
   * A progress in [0, 100] stays there under a non-negative step and never goes
   * down.
   */
  lemma ClampedProgressMonotone(progress: int, step: int)
    requires 0 <= progress <= MaxProgress && step >= 0
    ensures progress <= ClampedProgress(progress, step) <= MaxProgress
  {
  }

  /** Applying the default step `n` times. */
  function StepTimes(progress: int, n: nat): int {
    if n == 0 then progress else ClampedProgress(StepTimes(progress, n - 1), DefaultStep)
  }

  /** `n` default steps from a valid progress give `min(progress + 10n, 100)`. */
  lemma {:induction false} StepTimesClosedForm(progress: int, n: nat)
    requires 0 <= progress <= MaxProgress
    ensures StepTimes(progress, n) == if progress + 10 * n < MaxProgress then progress + 10 * n else MaxProgress
  {
    if n > 0 {
      StepTimesClosedForm(progress, n - 1);
    }
  }

  /** Ten taps of the default step fill any valid progress, 0 included, and nine do not fill 0. */
  lemma TenStepsReachFull(progress: int)
    requires 0 <= progress <= MaxProgress
    ensures StepTimes(progress, 10) == MaxProgress
    ensures StepTimes(0, 9) < MaxProgress
  {
    StepTimesClosedForm(progress, 10);
    StepTimesClosedForm(0, 9);
  }

  /** `Math.ceil(progress / 20)` for a whole-number progress. */
  function CeilTwentieths(progress: int): (r: int)
    ensures 20 * (r - 1) < progress <= 20 * r
  {
    (progress + 19) / 20
  }

  /** Day dot `idx` is drawn filled. */
  predicate DotFilled(idx: nat, progress: int) {
    idx + 1 <= CeilTwentieths(progress)
  }

  /** Number of filled dots among the first `k`. */
  function FilledAmong(k: nat, progress: int): nat {
    if k == 0 then 0 else FilledAmong(k - 1, progress) + (if DotFilled(k - 1, progress) then 1 else 0)
  }

  /** The filled dots are always the leading ones: as many as the rounded-up fifth, clipped to [0, k]. */
  lemma {:induction false} FilledAmongIsClippedCeil(k: nat, progress: int)
    ensures FilledAmong(k, progress) ==
      if CeilTwentieths(progress) <= 0 then 0
      else if CeilTwentieths(progress) >= k then k
      else CeilTwentieths(progress)
  {
    if k > 0 {
      FilledAmongIsClippedCeil(k - 1, progress);
    }
  }

  /** For a progress in [0, 100] exactly `ceil(progress / 20)` of the five dots are filled, the first ones. */
  lemma FilledDotsOfValidProgress(progress: int, idx: nat)
    requires 0 <= progress <= MaxProgress
    ensures FilledAmong(DotCount, progress) == CeilTwentieths(progress) <= 5
    ensures idx < DotCount ==> (DotFilled(idx, progress) <==> idx < FilledAmong(DotCount, progress))
  {
    FilledAmongIsClippedCeil(DotCount, progress);
  }

  /** Tapping a dot fills exactly one more dot, until all five are filled. */
  lemma DotTapFillsOneMore(progress: int)
    requires 0 <= progress <= MaxProgress
    ensures var after := ClampedProgress(progress, DotStep);
      FilledAmong(DotCount, after) ==
        if FilledAmong(DotCount, progress) < 5 then FilledAmong(DotCount, progress) + 1 else 5
  {
    FilledAmongIsClippedCeil(DotCount, progress);
    FilledAmongIsClippedCeil(DotCount, ClampedProgress(progress, DotStep));
  }

  /** The subjects without those whose id is `id`, in their original order. */
  function Without(subjects: seq<Subject>, id: int): seq<Subject> {
    if subjects == [] then []
    else
      var last := subjects[|subjects| - 1];
      Without(subjects[..|subjects| - 1], id) + (if last.id != id then [last] else [])
  }

  /** Exactly the subjects with another id remain. */
  lemma {:induction false} WithoutMembers(subjects: seq<Subject>, id: int)
    ensures forall s :: s in Without(subjects, id) <==> s in subjects && s.id != id
    ensures |Without(subjects, id)| <= |subjects|
  {
    if subjects != [] {
      var init := subjects[..|subjects| - 1];
      WithoutMembers(init, id);
      assert subjects == init + [subjects[|subjects| - 1]];
    }
  }

  /** Removal keeps relative order: it works piecewise over a split of the list. */
  lemma {:induction false} WithoutSplits(a: seq<Subject>, b: seq<Subject>, id: int)
    ensures Without(a + b, id) == Without(a, id) + Without(b, id)
  {
    if b != [] {
      var init := b[..|b| - 1];
      assert (a + b)[..|a + b| - 1] == a + init;
      WithoutSplits(a, init, id);
    } else {
      assert a + b == a;
    }
  }

  /** The first position holding a subject with id `id`, as `Array.prototype.find` picks it. */
  function FirstWithId(subjects: seq<Subject>, id: int): (r: Option<nat>)
    ensures r.Some? ==> r.value < |subjects| && subjects[r.value].id == id
    ensures r.Some? ==> forall j :: 0 <= j < r.value ==> subjects[j].id != id
    ensures r.None? ==> forall j :: 0 <= j < |subjects| ==> subjects[j].id != id
  {
    if subjects == [] then None
    else if subjects[0].id == id then Some(0)
    else match FirstWithId(subjects[1..], id)
      case None => None
      case Some(k) => Some(k + 1)
  }

  /** The subjects whose id is `id`, in order. */
  function WithId(subjects: seq<Subject>, id: int): seq<Subject> {
    if subjects == [] then []
    else
      var last := subjects[|subjects| - 1];
      WithId(subjects[..|subjects| - 1], id) + (if last.id == id then [last] else [])
  }

  predicate ProgressInRange(subjects: seq<Subject>) {
    forall i :: 0 <= i < |subjects| ==> 0 <= subjects[i].progress <= MaxProgress
  }

  /** The academic screen's state. */
  class SubjectBoard {
    var subjects: seq<Subject>
    var subjectName: string
    var difficulty: string
    var editingId: Option<int>
    var editName: string
    var editDifficulty: string

    constructor ()
      ensures subjects == [] && subjectName == "" && difficulty == DefaultDifficulty
      ensures editingId == None && editName == "" && editDifficulty == DefaultDifficulty
    {
      subjects := [];
      subjectName := "";
      difficulty := DefaultDifficulty;
      editingId := None;
      editName := "";
      editDifficulty := DefaultDifficulty;
    }

    /** `fetchSubjects`: an array replaces the list, any other payload empties it, a failed request leaves it. */
    method ReceiveSubjects(result: FetchResult)
      modifies this`subjects
      ensures result.ArrayPayload? ==> subjects == result.items
      ensures result.OtherPayload? ==> subjects == []
      ensures result.RequestFailed? ==> subjects == old(subjects)
    {
      match result
      case ArrayPayload(items) => subjects := items;
      case OtherPayload => subjects := [];
      case RequestFailed =>
    }

    /**
     * `addSubject`: a name that is blank once trimmed is refused and nothing is sent.
     * Otherwise the trimmed name, the chosen difficulty and progress 0 are posted;
     * once the post succeeds the form goes back to empty and "Easy". The list
     * itself is refreshed by the fetch that follows (`ReceiveSubjects`).
     */
    method AddSubject(requestOk: bool) returns (posted: Option<SubjectDraft>)
      modifies this`subjectName, this`difficulty
      ensures Trim(old(subjectName)) == [] ==>
        posted == None && subjectName == old(subjectName) && difficulty == old(difficulty)
      ensures Trim(old(subjectName)) != [] ==>
        posted == Some(SubjectDraft(Trim(old(subjectName)), old(difficulty), 0))
      ensures Trim(old(subjectName)) != [] && requestOk ==>
        subjectName == "" && difficulty == DefaultDifficulty
      ensures !requestOk ==> subjectName == old(subjectName) && difficulty == old(difficulty)
    {
      var name := Trim(subjectName);
      if name == [] {
        return None;
      }
      posted := Some(SubjectDraft(name, difficulty, 0));
      if requestOk {
        subjectName := "";
        difficulty := DefaultDifficulty;
      }
    }

    /**
     * `incrementProgress`: every subject with id `id` gets `min(progress + step, 100)`;
     * the others, the length and the order stay. Returns the records sent to the
     * backend, one per match.
     */
    method IncrementProgress(id: int, step: int) returns (sent: seq<Subject>)
      modifies this`subjects
      ensures |subjects| == |old(subjects)|
      ensures forall i :: 0 <= i < |subjects| ==>
        subjects[i] == if old(subjects)[i].id == id
          then old(subjects)[i].(progress := ClampedProgress(old(subjects)[i].progress, step))
          else old(subjects)[i]
      ensures sent == WithId(subjects, id)
      ensures ProgressInRange(old(subjects)) && step >= 0 ==> ProgressInRange(subjects)
      ensures step >= 0 ==> forall i :: 0 <= i < |subjects| && old(subjects)[i].progress <= MaxProgress ==>
        old(subjects)[i].progress <= subjects[i].progress
    {
      var prev := subjects;
      var next: seq<Subject> := [];
      sent := [];
      var i := 0;
      while i < |prev|
        invariant 0 <= i <= |prev|
        invariant |next| == i
        invariant forall k :: 0 <= k < i ==>
          next[k] == if prev[k].id == id then prev[k].(progress := ClampedProgress(prev[k].progress, step)) else prev[k]
        invariant sent == WithId(next, id)
      {
        var sub := prev[i];
        var item := sub;
        if sub.id == id {
          item := sub.(progress := ClampedProgress(sub.progress, step));
        }
        assert (next + [item])[..i] == next;
        next := next + [item];
        if item.id == id {
          sent := sent + [item];
        }
        i := i + 1;
      }
      subjects := next;
    }

    /**
     * The confirmed delete: once the backend accepts, the subjects with id `id` are
     * dropped and the rest keep their order; a failed request changes nothing.
     */
    method DeleteSubject(id: int, requestOk: bool)
      modifies this`subjects
      ensures requestOk ==> subjects == Without(old(subjects), id)
      ensures !requestOk ==> subjects == old(subjects)
    {
      if !requestOk {
        return;
      }
      var prev := subjects;
      var kept: seq<Subject> := [];
      var i := 0;
      while i < |prev|
        invariant 0 <= i <= |prev|
        invariant kept == Without(prev[..i], id)
      {
        assert prev[..i + 1][..i] == prev[..i];
        if prev[i].id != id {
          kept := kept + [prev[i]];
        }
        i := i + 1;
      }
      assert prev[..i] == prev;
      subjects := kept;
    }

    /** `startEditing`: the edit form takes the subject's id, name and difficulty. */
    method StartEditing(sub: Subject)
      modifies this`editingId, this`editName, this`editDifficulty
      ensures editingId == Some(sub.id) && editName == sub.name && editDifficulty == sub.difficulty
    {
      editingId := Some(sub.id);
      editName := sub.name;
      editDifficulty := sub.difficulty;
    }

    /** The Cancel button of the edit form: only leaves edit mode. */
    method CancelEditing()
      modifies this`editingId
      ensures editingId == None
    {
      editingId := None;
    }

    /**
     * `saveEdit`: a blank name (once trimmed) is refused and nothing changes.
     * Otherwise the first subject with the edited id is sent with only its name
     * (trimmed) and difficulty replaced, and the edit form is cleared. The update
     * call handles its own failures, so the form is cleared either way; the list is
     * refreshed by the fetch that follows.
     */
    method SaveEdit() returns (request: EditRequest)
      modifies this`editingId, this`editName, this`editDifficulty
      ensures Trim(old(editName)) == [] ==>
        && request == NoRequest && editingId == old(editingId)
        && editName == old(editName) && editDifficulty == old(editDifficulty)
      ensures Trim(old(editName)) != [] ==>
        editingId == None && editName == "" && editDifficulty == DefaultDifficulty
      ensures (Trim(old(editName)) != [] && old(editingId).Some? &&
               FirstWithId(subjects, old(editingId).value).Some?) ==>
          var s := subjects[FirstWithId(subjects, old(editingId).value).value];
          request == Put(Subject(s.id, Trim(old(editName)), old(editDifficulty), s.progress))
      ensures (Trim(old(editName)) != [] &&
               (old(editingId).None? || FirstWithId(subjects, old(editingId).value).None?)) ==>
          request == PutFieldsOnly(Trim(old(editName)), old(editDifficulty))
    {
      var name := Trim(editName);
      if name == [] {
        return NoRequest;
      }
      var found := if editingId.Some? then FirstWithId(subjects, editingId.value) else None;
      if found.Some? {
        request := Put(subjects[found.value].(name := name, difficulty := editDifficulty));
      } else {
        request := PutFieldsOnly(name, editDifficulty);
      }
      editingId := None;
      editName := "";
      editDifficulty := DefaultDifficulty;
    }
  }
}
