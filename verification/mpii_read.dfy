/** The MPII Human Pose annotation reader.

    The loaded MATLAB structure is modelled as plain datatypes whose optional
    fields stand for attributes that may be absent (an absent attribute raises
    AttributeError in the reader). The on-disk file listing and the random
    shuffle are parameters. */
module MpiiRead {
  import opened Wrappers
  import opened Tensors

  /** Person.NUM_JOINTS: the number of joint slots of a person. */
  const NumJoints: nat := 16

  // ---------------------------------------------------------------------------
  // Joint identities

  datatype Side = Right | Left

  datatype Joint =
    | Ankle(side: Side) | Knee(side: Side) | Hip(side: Side)
    | Pelvis | Thorax | UpperNeck | HeadTop
    | Wrist(side: Side) | Elbow(side: Side) | Shoulder(side: Side)

  /** The joint-id table of the Person class: slot i holds joint JointTable[i]. */
  const JointTable: seq<Joint> := [
    Ankle(Right), Knee(Right), Hip(Right), Hip(Left), Knee(Left), Ankle(Left),
    Pelvis, Thorax, UpperNeck, HeadTop,
    Wrist(Right), Elbow(Right), Shoulder(Right), Shoulder(Left), Elbow(Left), Wrist(Left)
  ]

  /** The slot of a joint; inverse of JointTable. */
  function IdOfJoint(j: Joint): (id: nat)
    ensures id < NumJoints && id < |JointTable| && JointTable[id] == j
  {
    match j
    case Ankle(Right) => 0
    case Knee(Right) => 1
    case Hip(Right) => 2
    case Hip(Left) => 3
    case Knee(Left) => 4
    case Ankle(Left) => 5
    case Pelvis => 6
    case Thorax => 7
    case UpperNeck => 8
    case HeadTop => 9
    case Wrist(Right) => 10
    case Elbow(Right) => 11
    case Shoulder(Right) => 12
    case Shoulder(Left) => 13
    case Elbow(Left) => 14
    case Wrist(Left) => 15
  }

  /** Every slot names a distinct joint: the table and IdOfJoint are inverse. */
  lemma JointTableIsBijective()
    ensures |JointTable| == NumJoints
    ensures forall id :: 0 <= id < NumJoints ==> IdOfJoint(JointTable[id]) == id
  {
  }

  // ---------------------------------------------------------------------------
  // Raw annotation records

  /** A MATLAB field that holds either one struct or an array of them; the
      reader's _make_iterable turns the former into a one-element list. */
  datatype OneOrMany<T> = One(item: T) | Many(items: seq<T>)

  function MakeIterable<T>(m: OneOrMany<T>): (r: seq<T>)
    ensures m.One? ==> |r| == 1 && r[0] == m.item
    ensures m.Many? ==> r == m.items
  {
    match m
    case One(x) => [x]
    case Many(xs) => xs
  }

  datatype RawPoint = RawPoint(id: Option<int>, x: Option<real>, y: Option<real>)

  datatype AnnoPoints = AnnoPoints(point: Option<OneOrMany<RawPoint>>)

  datatype ObjPos = ObjPos(x: Option<real>, y: Option<real>)

  datatype AnnoRect = AnnoRect(
    x1: Option<real>, y1: Option<real>, x2: Option<real>, y2: Option<real>,
    objpos: Option<ObjPos>, scale: Option<real>,
    annopoints: Option<AnnoPoints>)

  datatype ImageAnnotation = ImageAnnotation(imageName: string, annorect: OneOrMany<AnnoRect>)

  /** The RELEASE structure: `annolist` and the parallel `img_train` flags. */
  datatype Release = Release(annolist: seq<ImageAnnotation>, imgTrain: seq<int>)

  // ---------------------------------------------------------------------------
  // Parsed records

  datatype Rect = Rect(x0: real, y0: real, x1: real, y1: real)

  /** A rectangle collapsed to a single point. */
  predicate IsPoint(r: Rect) {
    r.x0 == r.x1 && r.y0 == r.y1
  }

  datatype Person = Person(joints: seq<Option<(real, real)>>, headRect: Rect)

  datatype MpiiDataset = MpiiDataset(imgFilenames: seq<string>, peopleInImgs: seq<seq<Person>>)

  /** The constructor of MpiiDataset asserts the two lists are parallel. */
  predicate ValidDataset(d: MpiiDataset) {
    |d.imgFilenames| == |d.peopleInImgs|
  }

  /** Exceptions that escape the reader. */
  datatype ParseError =
    | JointIndexOutOfRange(id: int)   // IndexError from `self._joints[joint.id] = ...`
    | TrainFlagMissing(index: nat)    // IndexError from `train_or_test[img_index]`

  // ---------------------------------------------------------------------------
  // Person.__init__

  function AllAbsent(): seq<Option<(real, real)>> {
    seq(NumJoints, _ => None)
  }

  datatype PointFault = MissingAttribute | IndexOutOfRange(id: int)

  /** What assigning one point raises, if anything: `(joint.x, joint.y)` is
      evaluated first, then `joint.id`, then the list index. */
  function FaultOf(p: RawPoint): Option<PointFault> {
    if p.x.None? || p.y.None? || p.id.None? then Some(MissingAttribute)
    else if !(-(NumJoints as int) <= p.id.value < NumJoints) then Some(IndexOutOfRange(p.id.value))
    else None
  }

  /** The list slot Python writes for an in-range id (negative ids count from the end). */
  function SlotOf(id: int): int {
    if id < 0 then id + NumJoints else id
  }

  function ValueOf(p: RawPoint): (real, real)
    requires FaultOf(p).None?
  {
    (p.x.value, p.y.value)
  }

  /** Reference definition: the coordinates of the LAST point whose slot is
      `s`, or `d` when no point targets `s`. */
  function LastFor(points: seq<RawPoint>, s: int, d: Option<(real, real)>): Option<(real, real)>
    requires forall k :: 0 <= k < |points| ==> FaultOf(points[k]).None?
  {
    if |points| == 0 then d
    else
      var p := points[|points| - 1];
      assert FaultOf(p).None?;
      if SlotOf(p.id.value) == s then Some(ValueOf(p))
      else LastFor(points[..|points| - 1], s, d)
  }

  /** The loop of Person.__init__: writes each point into its slot, in order. */
  function AssignJoints(slots: seq<Option<(real, real)>>, points: seq<RawPoint>): (r: Result<seq<Option<(real, real)>>, PointFault>)
    requires |slots| == NumJoints
    ensures r.Success? <==> forall k :: 0 <= k < |points| ==> FaultOf(points[k]).None?
    ensures r.Success? ==> |r.value| == NumJoints
    decreases |points|
  {
    if |points| == 0 then Success(slots)
    else
      var p := points[0];
      if FaultOf(p).Some? then Failure(FaultOf(p).value)
      else AssignJoints(slots[SlotOf(p.id.value) := Some(ValueOf(p))], points[1..])
  }

  lemma {:induction false} LastForCons(p: RawPoint, rest: seq<RawPoint>, s: int, d: Option<(real, real)>)
    requires FaultOf(p).None?
    requires forall k :: 0 <= k < |rest| ==> FaultOf(rest[k]).None?
    ensures forall k :: 0 <= k < |[p] + rest| ==> FaultOf(([p] + rest)[k]).None?
    ensures LastFor([p] + rest, s, d) == LastFor(rest, s, if SlotOf(p.id.value) == s then Some(ValueOf(p)) else d)
    decreases |rest|
  {
    var all := [p] + rest;
    if |rest| > 0 {
      assert all[..|all| - 1] == [p] + rest[..|rest| - 1];
      LastForCons(p, rest[..|rest| - 1], s, d);
    }
  }

  /** The loop fails exactly when some point is faulty, and then with the
      fault of the first faulty point. */
  lemma {:induction false} AssignJointsFails(slots: seq<Option<(real, real)>>, points: seq<RawPoint>)
    requires |slots| == NumJoints
    ensures AssignJoints(slots, points).Success? <==> forall k :: 0 <= k < |points| ==> FaultOf(points[k]).None?
    ensures AssignJoints(slots, points).Failure? ==>
      exists k :: (0 <= k < |points| && (forall j :: 0 <= j < k ==> FaultOf(points[j]).None?) &&
                   FaultOf(points[k]) == Some(AssignJoints(slots, points).error))
    decreases |points|
  {
    if |points| > 0 && FaultOf(points[0]).None? {
      var p := points[0];
      var slots' := slots[SlotOf(p.id.value) := Some(ValueOf(p))];
      AssignJointsFails(slots', points[1..]);
      var r := AssignJoints(slots, points);
      assert r == AssignJoints(slots', points[1..]);
      if r.Failure? {
        var k :| 0 <= k < |points[1..]| && (forall j :: 0 <= j < k ==> FaultOf(points[1..][j]).None?) &&
          FaultOf(points[1..][k]) == Some(r.error);
        assert FaultOf(points[k + 1]) == Some(r.error);
        forall j | 0 <= j < k + 1 ensures FaultOf(points[j]).None? {
          if j > 0 { assert points[j] == points[1..][j - 1]; }
        }
      } else {
        forall k | 0 <= k < |points| ensures FaultOf(points[k]).None? {
          if k > 0 { assert points[k] == points[1..][k - 1]; }
        }
      }
    }
  }

  /** After a successful loop each slot holds the last point written to it,
      or its initial value when no point names it. */
  lemma {:induction false} AssignJointsValues(slots: seq<Option<(real, real)>>, points: seq<RawPoint>)
    requires |slots| == NumJoints
    requires forall k :: 0 <= k < |points| ==> FaultOf(points[k]).None?
    ensures AssignJoints(slots, points).Success? && |AssignJoints(slots, points).value| == NumJoints
    ensures forall s :: 0 <= s < NumJoints ==> AssignJoints(slots, points).value[s] == LastFor(points, s, slots[s])
    decreases |points|
  {
    if |points| > 0 {
      var p := points[0];
      var slots' := slots[SlotOf(p.id.value) := Some(ValueOf(p))];
      assert AssignJoints(slots, points) == AssignJoints(slots', points[1..]);
      assert forall k :: 0 <= k < |points[1..]| ==> points[1..][k] == points[k + 1];
      AssignJointsValues(slots', points[1..]);
      assert points == [p] + points[1..];
      forall s | 0 <= s < NumJoints
        ensures AssignJoints(slots, points).value[s] == LastFor(points, s, slots[s])
      {
        LastForCons(p, points[1..], s, slots[s]);
      }
    }
  }

  /** The loop of Person.__init__, all together: it fails with the first
      faulty point's fault, and otherwise leaves each slot holding the last
      point written to it. */
  lemma AssignJointsSpec(slots: seq<Option<(real, real)>>, points: seq<RawPoint>)
    requires |slots| == NumJoints
    ensures AssignJoints(slots, points).Success? <==> forall k :: 0 <= k < |points| ==> FaultOf(points[k]).None?
    ensures AssignJoints(slots, points).Success? ==>
      |AssignJoints(slots, points).value| == NumJoints &&
      forall s :: 0 <= s < NumJoints ==> AssignJoints(slots, points).value[s] == LastFor(points, s, slots[s])
    ensures AssignJoints(slots, points).Failure? ==>
      exists k :: (0 <= k < |points| && (forall j :: 0 <= j < k ==> FaultOf(points[j]).None?) &&
                   FaultOf(points[k]) == Some(AssignJoints(slots, points).error))
  {
    AssignJointsFails(slots, points);
    if AssignJoints(slots, points).Success? {
      AssignJointsValues(slots, points);
    }
  }

  /** Person.__init__: sixteen slots, slot `s` holding the last point written
      to it, or the first fault met while writing. */
  function NewPerson(joints: OneOrMany<RawPoint>, headRect: Rect): (r: Result<Person, PointFault>)
    ensures r.Success? <==> forall k :: 0 <= k < |MakeIterable(joints)| ==> FaultOf(MakeIterable(joints)[k]).None?
    ensures r.Success? ==> r.value.headRect == headRect && |r.value.joints| == NumJoints
    ensures r.Success? ==> forall s :: 0 <= s < NumJoints ==>
      r.value.joints[s] == LastFor(MakeIterable(joints), s, None)
    ensures r.Failure? ==>
      exists k :: (0 <= k < |MakeIterable(joints)| &&
                   (forall j :: 0 <= j < k ==> FaultOf(MakeIterable(joints)[j]).None?) &&
                   FaultOf(MakeIterable(joints)[k]) == Some(r.error))
  {
    AssignJointsSpec(AllAbsent(), MakeIterable(joints));
    var slots :- AssignJoints(AllAbsent(), MakeIterable(joints));
    Success(Person(slots, headRect))
  }

  // ---------------------------------------------------------------------------
  // _get_head_rect

  predicate HasExplicitRect(a: AnnoRect) {
    a.x1.Some? && a.y1.Some? && a.x2.Some? && a.y2.Some?
  }

  predicate HasObjpos(a: AnnoRect) {
    a.objpos.Some? && a.objpos.value.x.Some? && a.objpos.value.y.Some? && a.scale.Some?
  }

  /** The head-box heuristic: 50*scale wide, centred on objpos.x, spanning
      70*scale to 20*scale above objpos.y. */
  function ObjposRect(x: real, y: real, scale: real): Rect {
    Rect(x - 25.0 * scale, y - 70.0 * scale, x + 25.0 * scale, y - 20.0 * scale)
  }

  /** The head rectangle of one annorect entry, or None on failure. */
  function GetHeadRect(a: AnnoRect): (r: Option<Rect>)
    ensures r.Some? ==> !IsPoint(r.value)
    ensures HasExplicitRect(a) ==>
      (r.None? <==> a.x1.value == a.x2.value && a.y1.value == a.y2.value) &&
      (r.Some? ==> r.value == Rect(a.x1.value, a.y1.value, a.x2.value, a.y2.value))
    ensures !HasExplicitRect(a) && HasObjpos(a) ==>
      (r.None? <==> a.scale.value == 0.0) &&
      (r.Some? ==> r.value == ObjposRect(a.objpos.value.x.value, a.objpos.value.y.value, a.scale.value))
    ensures !HasExplicitRect(a) && !HasObjpos(a) ==> r.None?
  {
    var candidate :=
      if HasExplicitRect(a) then Some(Rect(a.x1.value, a.y1.value, a.x2.value, a.y2.value))
      else if HasObjpos(a) then Some(ObjposRect(a.objpos.value.x.value, a.objpos.value.y.value, a.scale.value))
      else None;
    if candidate.Some? && IsPoint(candidate.value) then None else candidate
  }

  // ---------------------------------------------------------------------------
  // _parse_annotation

  /** True when `img_annorect.annopoints.point` raises AttributeError. */
  predicate LacksPoints(a: AnnoRect) {
    a.annopoints.None? || a.annopoints.value.point.None?
  }

  /** The body of the loop of _parse_annotation for one annorect: no person
      when there is no head rectangle; a person with all slots absent when the
      points are missing or a point lacks an attribute; an escaping IndexError
      for an out-of-range joint id. */
  function PersonOf(a: AnnoRect): (r: Result<Option<Person>, ParseError>)
    ensures GetHeadRect(a).None? <==> r == Success(None)
    ensures r.Success? && r.value.Some? ==>
      r.value.value.headRect == GetHeadRect(a).value && |r.value.value.joints| == NumJoints
    ensures GetHeadRect(a).Some? && LacksPoints(a) ==> r == Success(Some(Person(AllAbsent(), GetHeadRect(a).value)))
    ensures r.Failure? <==> (GetHeadRect(a).Some? && !LacksPoints(a) &&
                             NewPerson(a.annopoints.value.point.value, GetHeadRect(a).value).Failure? &&
                             NewPerson(a.annopoints.value.point.value, GetHeadRect(a).value).error.IndexOutOfRange?)
    ensures GetHeadRect(a).Some? && !LacksPoints(a) ==>
      var np := NewPerson(a.annopoints.value.point.value, GetHeadRect(a).value);
      (np.Success? ==> r == Success(Some(np.value))) &&
      (np == Failure(MissingAttribute) ==> r == Success(Some(Person(AllAbsent(), GetHeadRect(a).value))))
  {
    match GetHeadRect(a)
    case None => Success(None)
    case Some(rect) =>
      if LacksPoints(a) then Success(Some(Person(AllAbsent(), rect)))
      else
        match NewPerson(a.annopoints.value.point.value, rect)
        case Success(p) => Success(Some(p))
        case Failure(MissingAttribute) => Success(Some(Person(AllAbsent(), rect)))
        case Failure(IndexOutOfRange(id)) => Failure(JointIndexOutOfRange(id))
  }

  /** The joints of a parsed person: slot `s` holds the last point naming
      it, unless the entry has no points or one of them lacks an attribute,
      in which case every slot is empty. */
  lemma PersonOfJoints(a: AnnoRect)
    requires PersonOf(a).Success? && PersonOf(a).value.Some?
    ensures var joints := PersonOf(a).value.value.joints;
      |joints| == NumJoints &&
      forall s :: 0 <= s < NumJoints ==>
        joints[s] == if LacksPoints(a) || NewPerson(a.annopoints.value.point.value, GetHeadRect(a).value).Failure?
                     then None
                     else LastFor(MakeIterable(a.annopoints.value.point.value), s, None)
  {
  }

  /** Reference definition: the head rectangles of the entries that have one, in order. */
  function RetainedRects(rects: seq<AnnoRect>): seq<Rect> {
    if |rects| == 0 then []
    else (if GetHeadRect(rects[0]).Some? then [GetHeadRect(rects[0]).value] else []) + RetainedRects(rects[1..])
  }

  /** Reference definition: the people of the entries that yield one, in
      order, when no entry raises. */
  function RetainedPeople(rects: seq<AnnoRect>): seq<Person>
    requires forall k :: 0 <= k < |rects| ==> PersonOf(rects[k]).Success?
  {
    if |rects| == 0 then []
    else
      var first := PersonOf(rects[0]).value;
      (if first.Some? then [first.value] else []) + RetainedPeople(rects[1..])
  }

  /** The retained people are exactly the people of the entries that yield one. */
  lemma {:induction false} RetainedPeopleMembers(rects: seq<AnnoRect>)
    requires forall k :: 0 <= k < |rects| ==> PersonOf(rects[k]).Success?
    ensures forall p :: p in RetainedPeople(rects) <==>
      exists k :: 0 <= k < |rects| && PersonOf(rects[k]) == Success(Some(p))
  {
    if |rects| > 0 {
      var rest := rects[1..];
      assert forall k :: 1 <= k < |rects| ==> rects[k] == rest[k - 1];
      RetainedPeopleMembers(rest);
      forall p | exists k :: 0 <= k < |rects| && PersonOf(rects[k]) == Success(Some(p))
        ensures p in RetainedPeople(rects)
      {
        var k :| 0 <= k < |rects| && PersonOf(rects[k]) == Success(Some(p));
        if k > 0 {
          assert PersonOf(rest[k - 1]) == Success(Some(p));
        }
      }
    }
  }

  /** The head rectangles of the retained people are the retained
      rectangles, in entry order; so there is at most one person per entry. */
  lemma {:induction false} RetainedPeopleRects(rects: seq<AnnoRect>)
    requires forall k :: 0 <= k < |rects| ==> PersonOf(rects[k]).Success?
    ensures HeadRects(RetainedPeople(rects)) == RetainedRects(rects)
    ensures |RetainedPeople(rects)| <= |rects|
  {
    if |rects| > 0 {
      RetainedPeopleRects(rects[1..]);
      RetainedStep(rects);
    }
  }

  /** One entry of `RetainedPeopleRects`: the first entry contributes the same
      head rectangle to both sides, and at most one person. */
  lemma RetainedStep(rects: seq<AnnoRect>)
    requires 0 < |rects|
    requires forall k :: 0 <= k < |rects| ==> PersonOf(rects[k]).Success?
    ensures var front := if GetHeadRect(rects[0]).Some? then [GetHeadRect(rects[0]).value] else [];
      HeadRects(RetainedPeople(rects)) == front + HeadRects(RetainedPeople(rects[1..])) &&
      RetainedRects(rects) == front + RetainedRects(rects[1..]) &&
      |RetainedPeople(rects)| <= 1 + |RetainedPeople(rects[1..])|
  {
    var first := PersonOf(rects[0]).value;
    var people := if first.Some? then [first.value] else [];
    PersonOfHeadRect(rects[0]);
    HeadRectsAppend(people, RetainedPeople(rects[1..]));
  }

  function HeadRects(people: seq<Person>): seq<Rect> {
    seq(|people|, k requires 0 <= k < |people| => people[k].headRect)
  }

  lemma HeadRectsAppend(a: seq<Person>, b: seq<Person>)
    ensures HeadRects(a + b) == HeadRects(a) + HeadRects(b)
  {
  }

  /** An entry yields a person exactly when it has a head rectangle, and the
      person carries that rectangle. */
  lemma PersonOfHeadRect(a: AnnoRect)
    requires PersonOf(a).Success?
    ensures PersonOf(a).value.Some? <==> GetHeadRect(a).Some?
    ensures PersonOf(a).value.Some? ==> PersonOf(a).value.value.headRect == GetHeadRect(a).value
  {
  }

  /** The loop of _parse_annotation over the annorect entries. */
  function ParsePeople(rects: seq<AnnoRect>): (r: Result<seq<Person>, ParseError>)
    ensures r.Failure? <==> exists k :: 0 <= k < |rects| && PersonOf(rects[k]).Failure?
    ensures r.Success? ==> r.value == RetainedPeople(rects)
    ensures r.Success? ==> forall k :: 0 <= k < |r.value| ==> |r.value[k].joints| == NumJoints
  {
    if |rects| == 0 then Success([])
    else
      var first :- PersonOf(rects[0]);
      var rest :- ParsePeople(rects[1..]);
      assert forall k :: 1 <= k < |rects| ==> rects[k] == rects[1..][k - 1];
      Success((if first.Some? then [first.value] else []) + rest)
  }

  /** os.path.join of a directory and a file name (POSIX). */
  function Join(dir: string, name: string): string {
    if |name| > 0 && name[0] == '/' then name
    else if |dir| == 0 || dir[|dir| - 1] == '/' then dir + name
    else dir + "/" + name
  }

  /** os.path.basename (POSIX): the part after the last '/'. */
  function Basename(p: string): string {
    if |p| == 0 then ""
    else if p[|p| - 1] == '/' then ""
    else Basename(p[..|p| - 1]) + [p[|p| - 1]]
  }

  /** The basename is the slash-free tail of the path, and it is preceded by
      a '/' unless it is the whole path. */
  lemma {:induction false} BasenameIsLastComponent(p: string)
    ensures var b := Basename(p);
      '/' !in b && |b| <= |p| && b == p[|p| - |b|..] && (|b| < |p| ==> p[|p| - |b| - 1] == '/')
  {
    if |p| > 0 && p[|p| - 1] != '/' {
      var q := p[..|p| - 1];
      BasenameIsLastComponent(q);
      var bq := Basename(q);
      assert Basename(p) == bq + [p[|p| - 1]];
      assert p[|p| - |bq| - 1..] == q[|q| - |bq|..] + [p[|p| - 1]];
    }
  }

  /** A slash-free name after a directory part ending in '/' is its own basename. */
  lemma BasenameAfterSlash(prefix: string, name: string)
    requires '/' !in name
    requires |prefix| == 0 || prefix[|prefix| - 1] == '/'
    ensures Basename(prefix + name) == name
  {
    var p := prefix + name;
    var b := Basename(p);
    BasenameIsLastComponent(p);
    assert p[|p| - |name|..] == name;
    if |b| > |name| {
      assert false;
    } else if |b| < |name| {
      assert false;
    }
  }

  /** A plain file name joined onto a directory is recovered by basename. */
  lemma BasenameOfJoin(dir: string, name: string)
    requires '/' !in name
    ensures Basename(Join(dir, name)) == name
  {
    if |name| > 0 {
      assert name[0] in name;
    }
    if |dir| == 0 || dir[|dir| - 1] == '/' {
      BasenameAfterSlash(dir, name);
    } else {
      assert dir + "/" + name == (dir + "/") + name;
      BasenameAfterSlash(dir + "/", name);
    }
  }

  /** _parse_annotation: the image's path and its people. */
  function ParseAnnotation(ann: ImageAnnotation, imagesDir: string): (r: Result<(string, seq<Person>), ParseError>)
    ensures r.Failure? <==> exists k :: 0 <= k < |MakeIterable(ann.annorect)| &&
                                       PersonOf(MakeIterable(ann.annorect)[k]).Failure?
    ensures r.Success? ==> r.value.0 == Join(imagesDir, ann.imageName)
    ensures r.Success? ==> r.value.1 == RetainedPeople(MakeIterable(ann.annorect))
    ensures r.Success? ==> forall k :: 0 <= k < |r.value.1| ==> |r.value.1[k].joints| == NumJoints
  {
    var people :- ParsePeople(MakeIterable(ann.annorect));
    Success((Join(imagesDir, ann.imageName), people))
  }

  /** A lone annorect struct is parsed exactly like a one-element list of it. */
  lemma SingleAnnorectIsOneElementList(name: string, a: AnnoRect, imagesDir: string)
    ensures ParseAnnotation(ImageAnnotation(name, One(a)), imagesDir) ==
            ParseAnnotation(ImageAnnotation(name, Many([a])), imagesDir)
  {
  }

  // ---------------------------------------------------------------------------
  // _shuffle_list, _shuffle_dataset

  /** `[list_l[index] for index in shuffled_indices]` */
  function ShuffleList<T>(l: seq<T>, shuffledIndices: seq<nat>): (r: seq<T>)
    requires forall k :: 0 <= k < |shuffledIndices| ==> shuffledIndices[k] < |l|
    ensures |r| == |shuffledIndices|
    ensures forall k :: 0 <= k < |r| ==> r[k] == l[shuffledIndices[k]]
    ensures IsPermutation(shuffledIndices, |l|) ==> multiset(r) == multiset(l)
  {
    assert IsPermutation(shuffledIndices, |l|) ==> multiset(Gather(l, shuffledIndices)) == multiset(l) by {
      if IsPermutation(shuffledIndices, |l|) {
        GatherPermutation(l, shuffledIndices);
      }
    }
    Gather(l, shuffledIndices)
  }

  function Zip<A, B>(a: seq<A>, b: seq<B>): seq<(A, B)>
    requires |a| <= |b|
  {
    seq(|a|, k requires 0 <= k < |a| => (a[k], b[k]))
  }

  /** Both lists reordered by the same permutation: every (file, people)
      pair survives, and nothing else does. */
  function ShuffleDataset(imgFilenames: seq<string>, peopleInImgs: seq<seq<Person>>, imgIndices: seq<nat>)
    : (r: (seq<string>, seq<seq<Person>>))
    requires IsPermutation(imgIndices, |imgFilenames|) && |imgFilenames| <= |peopleInImgs|
    ensures |r.0| == |r.1| == |imgFilenames|
    ensures |imgIndices| == |r.0|
    ensures forall k :: 0 <= k < |r.0| ==>
      imgIndices[k] < |imgFilenames| && r.0[k] == imgFilenames[imgIndices[k]] && r.1[k] == peopleInImgs[imgIndices[k]]
    ensures multiset(r.0) == multiset(imgFilenames)
    ensures multiset(Zip(r.0, r.1)) == multiset(Zip(imgFilenames, peopleInImgs))
  {
    PermutationBounds(imgIndices, |imgFilenames|);
    var files := ShuffleList(imgFilenames, imgIndices);
    var people := ShuffleList(peopleInImgs, imgIndices);
    var pairs := Zip(imgFilenames, peopleInImgs);
    GatherPermutation(pairs, imgIndices);
    assert Zip(files, people) == Gather(pairs, imgIndices);
    (files, people)
  }

  // ---------------------------------------------------------------------------
  // parse_mpii_data_from_mat

  function TrainFlag(isTrain: bool): int {
    if isTrain then 1 else 0
  }

  /** What `_parse_annotation` gives for one image. */
  type Outcome = Result<(string, seq<Person>), ParseError>

  /** The inputs of the filtering loop: the parse outcome of every image (the
      loop only looks at those of the images it selects), the train/test
      flags, the wanted flag, and whether a path's file name is on disk. */
  datatype Filter = Filter(outcomes: seq<Outcome>, flags: seq<int>, want: int, present: string -> bool)

  /** The filter `parse_mpii_data_from_mat` runs over a release. */
  function ReaderFilter(release: Release, imagesDir: string, isTrain: bool, onDisk: set<string>): (f: Filter)
    ensures |f.outcomes| == |release.annolist| && f.flags == release.imgTrain
    ensures f.want == TrainFlag(isTrain)
    ensures forall path :: f.present(path) <==> Basename(path) in onDisk
    ensures forall i :: 0 <= i < |f.outcomes| ==> f.outcomes[i] == ParseAnnotation(release.annolist[i], imagesDir)
  {
    Filter(seq(|release.annolist|, i requires 0 <= i < |release.annolist| => ParseAnnotation(release.annolist[i], imagesDir)),
           release.imgTrain, TrainFlag(isTrain), path => Basename(path) in onDisk)
  }

  /** Image `i` makes the reader raise: its train flag is missing, or it is
      selected and parsing its people raises. */
  predicate Raises(f: Filter, i: nat)
    requires i < |f.outcomes|
  {
    i >= |f.flags| || (f.flags[i] == f.want && f.outcomes[i].Failure?)
  }

  /** Image `i` survives the filter: selected by its flag, at least one
      person, and its file name present on disk. */
  predicate Keeps(f: Filter, i: nat)
    requires i < |f.outcomes|
  {
    i < |f.flags| && f.flags[i] == f.want && f.outcomes[i].Success? &&
    |f.outcomes[i].value.1| > 0 && f.present(f.outcomes[i].value.0)
  }

  /** The filtering loop from image `i` on: the indices of the kept images, in order. */
  function CollectFrom(f: Filter, i: nat): (r: Result<seq<nat>, ParseError>)
    requires i <= |f.outcomes|
    ensures r.Success? ==> forall k :: 0 <= k < |r.value| ==> i <= r.value[k] < |f.outcomes|
    decreases |f.outcomes| - i
  {
    if i == |f.outcomes| then Success([])
    else if i >= |f.flags| then Failure(TrainFlagMissing(i))
    else if f.flags[i] != f.want then CollectFrom(f, i + 1)
    else
      match f.outcomes[i]
      case Failure(e) => Failure(e)
      case Success(parsed) =>
        match CollectFrom(f, i + 1)
        case Failure(e) => Failure(e)
        case Success(rest) =>
          if |parsed.1| == 0 || !f.present(parsed.0) then Success(rest)
          else Success([i] + rest)
  }

  /** The loop raises exactly when some remaining image raises. */
  lemma {:induction false} CollectFromFails(f: Filter, i: nat)
    requires i <= |f.outcomes|
    ensures CollectFrom(f, i).Failure? <==> exists j :: i <= j < |f.outcomes| && Raises(f, j)
    decreases |f.outcomes| - i
  {
    if i == |f.outcomes| {
    } else if i >= |f.flags| {
      assert Raises(f, i);
    } else {
      CollectFromFails(f, i + 1);
      if !Raises(f, i) {
        assert (exists j :: i <= j < |f.outcomes| && Raises(f, j)) <==>
          (exists j :: i + 1 <= j < |f.outcomes| && Raises(f, j));
      }
    }
  }

  /** One step of the loop: image `i` is prepended exactly when it is kept,
      and the loop from `i` succeeds only if the loop from `i + 1` does. */
  lemma CollectFromStep(f: Filter, i: nat)
    requires i < |f.outcomes| && i < |f.flags|
    ensures var r := CollectFrom(f, i);
      var rest := CollectFrom(f, i + 1);
      r.Success? ==>
        rest.Success? && r.value == (if Keeps(f, i) then [i] + rest.value else rest.value)
  {
  }

  /** What the loop yields is strictly increasing. */
  lemma {:induction false} CollectFromIncreasing(f: Filter, i: nat)
    requires i <= |f.outcomes|
    ensures var r := CollectFrom(f, i);
      r.Success? ==> StrictlyIncreasing(r.value)
    decreases |f.outcomes| - i
  {
    var r := CollectFrom(f, i);
    if i < |f.outcomes| && i < |f.flags| && r.Success? {
      CollectFromIncreasing(f, i + 1);
      CollectFromStep(f, i);
      var rest := CollectFrom(f, i + 1).value;
      if Keeps(f, i) {
        IncreasingCons(i, rest);
      }
    }
  }

  /** Every index the loop yields is an image it keeps. */
  lemma {:induction false} CollectFromSound(f: Filter, i: nat)
    requires i <= |f.outcomes|
    ensures var r := CollectFrom(f, i);
      r.Success? ==> forall k :: 0 <= k < |r.value| ==> Keeps(f, r.value[k])
    decreases |f.outcomes| - i
  {
    var r := CollectFrom(f, i);
    if i < |f.outcomes| && i < |f.flags| && r.Success? {
      CollectFromSound(f, i + 1);
      CollectFromStep(f, i);
      var rest := CollectFrom(f, i + 1).value;
      forall k | 0 <= k < |r.value|
        ensures Keeps(f, r.value[k])
      {
        if Keeps(f, i) && k > 0 {
          assert r.value[k] == rest[k - 1];
        }
      }
    }
  }

  /** Every remaining image that is kept appears in what the loop yields. */
  lemma {:induction false} CollectFromComplete(f: Filter, i: nat)
    requires i <= |f.outcomes|
    ensures var r := CollectFrom(f, i);
      r.Success? ==> forall j :: i <= j < |f.outcomes| && Keeps(f, j) ==> j in r.value
    decreases |f.outcomes| - i
  {
    var r := CollectFrom(f, i);
    if i < |f.outcomes| && i < |f.flags| && r.Success? {
      CollectFromComplete(f, i + 1);
      CollectFromStep(f, i);
    }
  }

  lemma {:induction false} IncreasingCard(s: seq<int>)
    requires StrictlyIncreasing(s)
    ensures |set x | x in s| == |s|
  {
    if |s| > 0 {
      var front := s[..|s| - 1];
      var last := s[|s| - 1];
      assert StrictlyIncreasing(front) by {
        forall a, b | 0 <= a < b < |front| ensures front[a] < front[b] {
          assert front[a] == s[a] && front[b] == s[b];
        }
      }
      IncreasingCard(front);
      var all := set x | x in s;
      var init := set x | x in front;
      assert s == front + [last];
      assert all == init + {last};
      forall x | x in front ensures x < last {
        var k :| 0 <= k < |front| && front[k] == x;
        assert s[k] < s[|s| - 1];
      }
      assert last !in init;
    }
  }

  /** The indices of all images the filter keeps. */
  function KeptSet(f: Filter): set<int> {
    set i: nat | i < |f.outcomes| && Keeps(f, i)
  }

  /** The filter keeps exactly one entry per qualifying image. */
  lemma KeptCount(f: Filter, kept: seq<nat>)
    requires CollectFrom(f, 0) == Success(kept)
    ensures |kept| == |KeptSet(f)|
  {
    CollectFromIncreasing(f, 0);
    CollectFromSound(f, 0);
    CollectFromComplete(f, 0);
    var ks: seq<int> := kept;
    assert (set x | x in ks) == KeptSet(f);
    IncreasingCard(ks);
  }

  /** The file name and people of each kept image, in filter order. */
  function KeptPairs(f: Filter, kept: seq<nat>): (r: (seq<string>, seq<seq<Person>>))
    requires forall k :: 0 <= k < |kept| ==> kept[k] < |f.outcomes| && Keeps(f, kept[k])
    ensures |r.0| == |r.1| == |kept|
    ensures forall k :: 0 <= k < |kept| ==> f.outcomes[kept[k]] == Success((r.0[k], r.1[k]))
  {
    var n := |kept|;
    assert forall k :: 0 <= k < n ==> f.outcomes[kept[k]].Success? by {
      forall k | 0 <= k < n ensures f.outcomes[kept[k]].Success? {
        assert Keeps(f, kept[k]);
      }
    }
    (seq(n, k requires 0 <= k < n => f.outcomes[kept[k]].value.0),
     seq(n, k requires 0 <= k < n => f.outcomes[kept[k]].value.1))
  }

  /** Reference definition: the (path, people) pair of every image from `i`
      on that the filter keeps, in index order. */
  function KeptFrom(f: Filter, i: nat): seq<(string, seq<Person>)>
    requires i <= |f.outcomes|
    decreases |f.outcomes| - i
  {
    if i == |f.outcomes| then []
    else (if Keeps(f, i) then [f.outcomes[i].value] else []) + KeptFrom(f, i + 1)
  }

  /** A pair is in the reference list exactly when some kept image from `i`
      on parses to it. */
  lemma {:induction false} KeptFromMembers(f: Filter, i: nat)
    requires i <= |f.outcomes|
    ensures forall p :: p in KeptFrom(f, i) <==>
      exists j :: i <= j < |f.outcomes| && Keeps(f, j) && f.outcomes[j] == Success(p)
    decreases |f.outcomes| - i
  {
    if i < |f.outcomes| {
      KeptFromMembers(f, i + 1);
      var front := if Keeps(f, i) then [f.outcomes[i].value] else [];
      assert KeptFrom(f, i) == front + KeptFrom(f, i + 1);
      forall p | exists j :: i <= j < |f.outcomes| && Keeps(f, j) && f.outcomes[j] == Success(p)
        ensures p in KeptFrom(f, i)
      {
        var j :| i <= j < |f.outcomes| && Keeps(f, j) && f.outcomes[j] == Success(p);
        if j == i {
          assert p == f.outcomes[i].value;
        }
      }
    }
  }

  /** The pairs of the indices the loop collects from `i` on are the
      reference list from `i`: every kept image once, in index order. */
  lemma {:induction false} CollectFromPairs(f: Filter, i: nat)
    requires i <= |f.outcomes|
    ensures var r := CollectFrom(f, i);
      r.Success? ==>
        (forall k :: 0 <= k < |r.value| ==> Keeps(f, r.value[k])) &&
        Zip(KeptPairs(f, r.value).0, KeptPairs(f, r.value).1) == KeptFrom(f, i)
    decreases |f.outcomes| - i
  {
    var r := CollectFrom(f, i);
    CollectFromSound(f, i);
    if i < |f.outcomes| && i < |f.flags| && r.Success? {
      CollectFromPairs(f, i + 1);
      CollectFromStep(f, i);
      CollectFromSound(f, i + 1);
      var rest := CollectFrom(f, i + 1).value;
      assert KeptFrom(f, i) == (if Keeps(f, i) then [f.outcomes[i].value] else []) + KeptFrom(f, i + 1);
      if Keeps(f, i) {
        KeptPairsCons(f, i, rest);
      }
    }
  }

  /** Keeping one more image in front adds its pair in front. */
  lemma KeptPairsCons(f: Filter, i: nat, rest: seq<nat>)
    requires i < |f.outcomes| && Keeps(f, i)
    requires forall k :: 0 <= k < |rest| ==> rest[k] < |f.outcomes| && Keeps(f, rest[k])
    ensures var kept := [i] + rest;
      Zip(KeptPairs(f, kept).0, KeptPairs(f, kept).1) ==
      [f.outcomes[i].value] + Zip(KeptPairs(f, rest).0, KeptPairs(f, rest).1)
  {
    var kept := [i] + rest;
    var pairs := Zip(KeptPairs(f, kept).0, KeptPairs(f, kept).1);
    var restPairs := Zip(KeptPairs(f, rest).0, KeptPairs(f, rest).1);
    assert forall k :: 0 <= k < |kept| ==> pairs[k] == f.outcomes[kept[k]].value;
    assert forall k :: 0 <= k < |rest| ==> restPairs[k] == f.outcomes[rest[k]].value;
  }

  /** The reader's result for a filter: the kept images, reordered by the
      shuffle `shuffleOf(n)` (a permutation of [0, n)). */
  function FilterDataset(f: Filter, shuffleOf: nat -> seq<nat>): (r: Result<MpiiDataset, ParseError>)
    requires forall n: nat :: IsPermutation(shuffleOf(n), n)
    ensures r.Failure? <==> exists j :: 0 <= j < |f.outcomes| && Raises(f, j)
    ensures r.Success? ==> ValidDataset(r.value) && |r.value.imgFilenames| == |KeptSet(f)|
    ensures r.Success? ==> forall k :: 0 <= k < |r.value.imgFilenames| ==>
      exists i :: 0 <= i < |f.outcomes| && Keeps(f, i) &&
        f.outcomes[i] == Success((r.value.imgFilenames[k], r.value.peopleInImgs[k]))
    ensures r.Success? ==> multiset(Zip(r.value.imgFilenames, r.value.peopleInImgs)) == multiset(KeptFrom(f, 0))
    ensures r.Success? ==>
      var pairs := KeptFrom(f, 0);
      var perm := shuffleOf(|pairs|);
      |r.value.imgFilenames| == |pairs| == |perm| &&
      forall k :: 0 <= k < |pairs| ==>
        perm[k] < |pairs| && (r.value.imgFilenames[k], r.value.peopleInImgs[k]) == pairs[perm[k]]
  {
    CollectFromFails(f, 0);
    CollectFromSound(f, 0);
    CollectFromPairs(f, 0);
    var kept :- CollectFrom(f, 0);
    KeptCount(f, kept);
    var pairs := KeptPairs(f, kept);
    var perm := shuffleOf(|kept|);
    PermutationBounds(perm, |kept|);
    var shuffled := ShuffleDataset(pairs.0, pairs.1, perm);
    assert forall k :: 0 <= k < |kept| ==> Keeps(f, kept[perm[k]]) &&
      f.outcomes[kept[perm[k]]] == Success((shuffled.0[k], shuffled.1[k]));
    ShuffledPairs(pairs.0, pairs.1, perm, shuffled, KeptFrom(f, 0));
    Success(MpiiDataset(shuffled.0, shuffled.1))
  }

  /** Reading a shuffled pair of lists together gives the shuffled list of pairs. */
  lemma ShuffledPairs(names: seq<string>, people: seq<seq<Person>>, perm: seq<nat>,
                      shuffled: (seq<string>, seq<seq<Person>>), pairs: seq<(string, seq<Person>)>)
    requires |names| == |people| && Zip(names, people) == pairs
    requires IsPermutation(perm, |names|)
    requires shuffled == ShuffleDataset(names, people, perm)
    ensures |shuffled.0| == |pairs|
    ensures forall k :: 0 <= k < |pairs| ==> perm[k] < |pairs| && (shuffled.0[k], shuffled.1[k]) == pairs[perm[k]]
  {
  }

  /** Image `j` of the release makes the reader raise: its train flag is
      missing, or it is selected and parsing its people raises. */
  predicate ImageRaises(release: Release, imagesDir: string, isTrain: bool, j: nat)
    requires j < |release.annolist|
  {
    j >= |release.imgTrain| ||
    (release.imgTrain[j] == TrainFlag(isTrain) && ParseAnnotation(release.annolist[j], imagesDir).Failure?)
  }

  /** Image `i` of the release is selected and parses to the given pair. */
  predicate ImageParsesTo(release: Release, imagesDir: string, isTrain: bool, i: nat, name: string, people: seq<Person>)
    requires i < |release.annolist|
  {
    i < |release.imgTrain| && release.imgTrain[i] == TrainFlag(isTrain) &&
    ParseAnnotation(release.annolist[i], imagesDir) == Success((name, people))
  }

  /** The reader's filter raises at image `j` exactly when the release's image `j` does. */
  lemma ReaderFilterRaises(release: Release, imagesDir: string, isTrain: bool, onDisk: set<string>)
    ensures var f := ReaderFilter(release, imagesDir, isTrain, onDisk);
      forall j :: 0 <= j < |release.annolist| ==> (Raises(f, j) <==> ImageRaises(release, imagesDir, isTrain, j))
  {
  }

  /** A pair kept by the reader's filter has people, its basename on disk, and
      comes from a selected image of the release. */
  lemma ReaderKeptSound(release: Release, imagesDir: string, isTrain: bool, onDisk: set<string>,
                        names: seq<string>, people: seq<seq<Person>>)
    requires |names| == |people|
    requires var f := ReaderFilter(release, imagesDir, isTrain, onDisk);
      forall k :: 0 <= k < |names| ==>
        exists i :: 0 <= i < |f.outcomes| && Keeps(f, i) && f.outcomes[i] == Success((names[k], people[k]))
    ensures forall k :: 0 <= k < |names| ==>
      |people[k]| > 0 && Basename(names[k]) in onDisk &&
      exists i :: 0 <= i < |release.annolist| && ImageParsesTo(release, imagesDir, isTrain, i, names[k], people[k])
  {
    var f := ReaderFilter(release, imagesDir, isTrain, onDisk);
    forall k | 0 <= k < |names|
      ensures |people[k]| > 0 && Basename(names[k]) in onDisk &&
        exists i :: 0 <= i < |release.annolist| && ImageParsesTo(release, imagesDir, isTrain, i, names[k], people[k])
    {
      var i :| 0 <= i < |f.outcomes| && Keeps(f, i) && f.outcomes[i] == Success((names[k], people[k]));
      assert ImageParsesTo(release, imagesDir, isTrain, i, names[k], people[k]);
    }
  }

  /** parse_mpii_data_from_mat, with the directory listing `onDisk` and the
      shuffle `shuffleOf(n)` (a permutation of [0, n)) passed in. */
  function ParseMpiiDataFromMat(release: Release, imagesDir: string, isTrain: bool, onDisk: set<string>,
                                shuffleOf: nat -> seq<nat>): (r: Result<MpiiDataset, ParseError>)
    requires forall n: nat :: IsPermutation(shuffleOf(n), n)
    ensures r.Failure? <==> (exists j :: 0 <= j < |release.annolist| && ImageRaises(release, imagesDir, isTrain, j))
    ensures r.Success? ==> ValidDataset(r.value)
    ensures r.Success? ==> |r.value.imgFilenames| == |KeptSet(ReaderFilter(release, imagesDir, isTrain, onDisk))|
    ensures r.Success? ==> forall k :: 0 <= k < |r.value.imgFilenames| ==>
      |r.value.peopleInImgs[k]| > 0 && Basename(r.value.imgFilenames[k]) in onDisk &&
      exists i :: 0 <= i < |release.annolist| &&
        ImageParsesTo(release, imagesDir, isTrain, i, r.value.imgFilenames[k], r.value.peopleInImgs[k])
    ensures r.Success? ==>
      multiset(Zip(r.value.imgFilenames, r.value.peopleInImgs)) ==
      multiset(KeptFrom(ReaderFilter(release, imagesDir, isTrain, onDisk), 0))
    ensures r.Success? ==>
      var pairs := KeptFrom(ReaderFilter(release, imagesDir, isTrain, onDisk), 0);
      var perm := shuffleOf(|pairs|);
      |r.value.imgFilenames| == |pairs| == |perm| &&
      forall k :: 0 <= k < |pairs| ==>
        perm[k] < |pairs| && (r.value.imgFilenames[k], r.value.peopleInImgs[k]) == pairs[perm[k]]
  {
    var f := ReaderFilter(release, imagesDir, isTrain, onDisk);
    var r := FilterDataset(f, shuffleOf);
    ReaderFilterRaises(release, imagesDir, isTrain, onDisk);
    if r.Success? then
      ReaderKeptSound(release, imagesDir, isTrain, onDisk, r.value.imgFilenames, r.value.peopleInImgs);
      ReaderKeptOrder(f, shuffleOf, r.value);
      r
    else r
  }

  /** The order and contents of a successful reading, restated about its lists. */
  lemma ReaderKeptOrder(f: Filter, shuffleOf: nat -> seq<nat>, d: MpiiDataset)
    requires forall n: nat :: IsPermutation(shuffleOf(n), n)
    ensures FilterDataset(f, shuffleOf) == Success(d) ==>
      multiset(Zip(d.imgFilenames, d.peopleInImgs)) == multiset(KeptFrom(f, 0))
    ensures FilterDataset(f, shuffleOf) == Success(d) ==>
      var pairs := KeptFrom(f, 0);
      var perm := shuffleOf(|pairs|);
      |d.imgFilenames| == |pairs| == |perm| &&
      forall k :: 0 <= k < |pairs| ==>
        perm[k] < |pairs| && (d.imgFilenames[k], d.peopleInImgs[k]) == pairs[perm[k]]
  {
  }
}
