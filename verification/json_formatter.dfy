/** The JSON output of the tool (JSONFormatter.swift): which keys a node
    emits, what they hold, and the sorted key order of the encoder. The
    result is an abstract JSON value; byte layout is not modelled. */
module JsonFormatter {
  import opened Wrappers

  /** A Swift `Double`, kept as its IEEE 754 bit pattern: the model never
      does arithmetic on it, it only needs to know whether it is finite. */
  datatype Double = Double(bits: bv64)

  /** Finite means the 11 exponent bits are not all ones (not an infinity
      and not a NaN). */
  predicate IsFinite(d: Double) {
    (d.bits >> 52) & 0x7FF != 0x7FF
  }

  /** `TreeNode.FrameInfo`. */
  datatype FrameInfo = FrameInfo(x: Double, y: Double, width: Double, height: Double)

  /** `TreeNode`: the serialisable form of an accessibility element. */
  datatype TreeNode = TreeNode(
    role: Option<string>,
    labelText: Option<string>,
    title: Option<string>,
    value: Option<string>,
    identifier: Option<string>,
    hint: Option<string>,
    traits: Option<seq<string>>,
    frame: Option<FrameInfo>,
    children: seq<TreeNode>)

  /** A JSON value; an object is its list of members in output order. */
  datatype Json =
    | JString(str: string)
    | JNumber(num: Double)
    | JArray(items: seq<Json>)
    | JObject(members: seq<Member>)

  datatype Member = Member(key: string, val: Json)

  /** A step of an encoding error's coding path: a key of a keyed
      container, or a position in an unkeyed one. */
  datatype CodingKey = Key(name: string) | Index(pos: nat)

  /** The only way `JSONEncoder` fails on a `TreeNode`: a non-finite
      double, which its default strategy refuses to encode, reported with
      the coding path from the root to the number. */
  datatype EncodeError = InvalidValue(number: Double, path: seq<CodingKey>)

  /** The same error, seen one container further out. */
  function Under(k: CodingKey, e: EncodeError): (r: EncodeError)
    ensures r.number == e.number && |r.path| == |e.path| + 1
    ensures r.path[0] == k && r.path[1..] == e.path
  {
    e.(path := [k] + e.path)
  }

  // ---------------------------------------------------------------------
  // Key order

  /** Lexicographic order on keys, character by character; a proper
      prefix comes first. */
  predicate LexLe(a: string, b: string) {
    if |a| == 0 then true
    else if |b| == 0 then false
    else if a[0] < b[0] then true
    else if a[0] == b[0] then LexLe(a[1..], b[1..])
    else false
  }

  lemma {:induction false} LexLeTotal(a: string, b: string)
    ensures LexLe(a, b) || LexLe(b, a)
  {
    if |a| > 0 && |b| > 0 && a[0] == b[0] {
      LexLeTotal(a[1..], b[1..]);
    }
  }

  lemma {:induction false} LexLeTrans(a: string, b: string, c: string)
    requires LexLe(a, b) && LexLe(b, c)
    ensures LexLe(a, c)
  {
    if |a| > 0 && |b| > 0 && |c| > 0 && a[0] == b[0] && b[0] == c[0] {
      LexLeTrans(a[1..], b[1..], c[1..]);
    }
  }

  lemma {:induction false} LexLeAntisym(a: string, b: string)
    requires LexLe(a, b) && LexLe(b, a)
    ensures a == b
  {
    if |a| > 0 && |b| > 0 {
      LexLeAntisym(a[1..], b[1..]);
      assert a == [a[0]] + a[1..] && b == [b[0]] + b[1..];
    }
  }

  /** The members are in ascending key order. */
  predicate Sorted(ms: seq<Member>) {
    forall i, j :: 0 <= i < j < |ms| ==> LexLe(ms[i].key, ms[j].key)
  }

  /** Insert `m` before the first member whose key is above it. */
  function Insert(m: Member, ms: seq<Member>): (r: seq<Member>)
    requires Sorted(ms)
    ensures multiset(r) == multiset(ms) + multiset{m}
    ensures Sorted(r)
  {
    if |ms| == 0 then [m]
    else if LexLe(m.key, ms[0].key) then
      InsertFront(m, ms);
      [m] + ms
    else
      var rest := Insert(m, ms[1..]);
      InsertBehind(m, ms, rest);
      assert ms == [ms[0]] + ms[1..];
      [ms[0]] + rest
  }

  lemma InsertFront(m: Member, ms: seq<Member>)
    requires Sorted(ms) && |ms| > 0 && LexLe(m.key, ms[0].key)
    ensures Sorted([m] + ms)
  {
    forall i, j | 0 <= i < j < |[m] + ms|
      ensures LexLe(([m] + ms)[i].key, ([m] + ms)[j].key)
    {
      if i == 0 && j > 1 {
        LexLeTrans(m.key, ms[0].key, ms[j - 1].key);
      }
    }
  }

  lemma InsertBehind(m: Member, ms: seq<Member>, rest: seq<Member>)
    requires Sorted(ms) && |ms| > 0 && !LexLe(m.key, ms[0].key)
    requires Sorted(rest) && multiset(rest) == multiset(ms[1..]) + multiset{m}
    ensures Sorted([ms[0]] + rest)
  {
    LexLeTotal(m.key, ms[0].key);
    forall j | 0 <= j < |rest|
      ensures LexLe(ms[0].key, rest[j].key)
    {
      assert rest[j] in multiset(rest);
      if rest[j] != m {
        assert rest[j] in multiset(ms[1..]);
        var k :| 0 <= k < |ms[1..]| && ms[1..][k] == rest[j];
        assert ms[k + 1] == rest[j];
      }
    }
  }

  /** The members sorted by key, as the encoder's `.sortedKeys` option
      emits them. */
  function SortMembers(ms: seq<Member>): (r: seq<Member>)
    ensures multiset(r) == multiset(ms)
    ensures Sorted(r)
  {
    if |ms| == 0 then []
    else
      assert ms == [ms[0]] + ms[1..];
      Insert(ms[0], SortMembers(ms[1..]))
  }

  // ---------------------------------------------------------------------
  // Encoding

  /** A frame as `FrameInfo`'s synthesised encoding writes it: the four
      numbers in declaration order. */
  function FrameObject(f: FrameInfo): Json {
    JObject([Member("x", JNumber(f.x)), Member("y", JNumber(f.y)),
             Member("width", JNumber(f.width)), Member("height", JNumber(f.height))])
  }

  predicate FrameFinite(f: FrameInfo) {
    IsFinite(f.x) && IsFinite(f.y) && IsFinite(f.width) && IsFinite(f.height)
  }

  /** `FrameInfo`'s encoding, failing at the first non-finite number. */
  function EncodeFrame(f: FrameInfo): Result<Json, EncodeError> {
    if !IsFinite(f.x) then Failure(InvalidValue(f.x, [Key("x")]))
    else if !IsFinite(f.y) then Failure(InvalidValue(f.y, [Key("y")]))
    else if !IsFinite(f.width) then Failure(InvalidValue(f.width, [Key("width")]))
    else if !IsFinite(f.height) then Failure(InvalidValue(f.height, [Key("height")]))
    else Success(FrameObject(f))
  }

  /** A member for an optional string: present exactly when the string is
      (an empty string still counts as present). */
  function IfPresent(key: string, s: Option<string>): seq<Member> {
    if s.Some? then [Member(key, JString(s.value))] else []
  }

  function Strings(ss: seq<string>): (r: seq<Json>)
    ensures |r| == |ss|
    ensures forall k :: 0 <= k < |ss| ==> r[k] == JString(ss[k])
  {
    if |ss| == 0 then [] else [JString(ss[0])] + Strings(ss[1..])
  }

  /** The members a node writes before its frame and children, in the
      order `encode(to:)` writes them. */
  function ScalarMembers(n: TreeNode): seq<Member> {
    IfPresent("role", n.role) + IfPresent("label", n.labelText) + IfPresent("title", n.title)
    + IfPresent("value", n.value) + IfPresent("identifier", n.identifier) + IfPresent("hint", n.hint)
    + (if n.traits.Some? && |n.traits.value| > 0 then [Member("traits", JArray(Strings(n.traits.value)))] else [])
  }

  /** `TreeNode.encode(to:)`: the keyed container in the order the fields
      are written, the frame, then the children; the first failure,
      depth first, stops the encoding. */
  function EncodeNode(n: TreeNode): Result<Json, EncodeError>
    decreases n, 1, 0
  {
    var frame := if n.frame.Some? then EncodeFrame(n.frame.value) else Success(JObject([]));
    if frame.Failure? then Failure(Under(Key("frame"), frame.error))
    else
      var kids := EncodeChildren(n, 0);
      if kids.Failure? then Failure(Under(Key("children"), kids.error))
      else
        Success(JObject(ScalarMembers(n)
          + (if n.frame.Some? then [Member("frame", frame.value)] else [])
          + (if |n.children| > 0 then [Member("children", JArray(kids.value))] else [])))
  }

  /** The encodings of the children of `n` from the `i`-th on, in order,
      or the first failure among them. */
  function EncodeChildren(n: TreeNode, i: nat): (r: Result<seq<Json>, EncodeError>)
    ensures r.Success? ==> |r.value| == |n.children| - i || (i > |n.children| && r.value == [])
    decreases n, 0, |n.children| - i
  {
    if i >= |n.children| then Success([])
    else
      var head := EncodeNode(n.children[i]);
      if head.Failure? then Failure(Under(Index(i), head.error))
      else
        var rest := EncodeChildren(n, i + 1);
        if rest.Failure? then Failure(rest.error)
        else Success([head.value] + rest.value)
  }

  // ---------------------------------------------------------------------
  // The sorted-keys layout

  /** The document as the encoder writes it with `.sortedKeys`: every
      object, at every depth, has its members in ascending key order. */
  function Layout(j: Json): Json
    decreases j, 1, 0
  {
    match j
    case JArray(items) => JArray(LayoutItems(j, 0))
    case JObject(ms) => JObject(SortMembers(LayoutMembers(j, 0)))
    case _ => j
  }

  function LayoutItems(j: Json, i: nat): (r: seq<Json>)
    requires j.JArray?
    ensures i <= |j.items| ==> |r| == |j.items| - i
    ensures forall k :: 0 <= k < |r| ==> i + k < |j.items| && r[k] == Layout(j.items[i + k])
    decreases j, 0, |j.items| - i
  {
    if i >= |j.items| then []
    else
      var head := Layout(j.items[i]);
      var rest := LayoutItems(j, i + 1);
      [head] + rest
  }

  function LayoutMembers(j: Json, i: nat): (r: seq<Member>)
    requires j.JObject?
    ensures i <= |j.members| ==> |r| == |j.members| - i
    ensures forall k :: 0 <= k < |r| ==>
      (i + k < |j.members| && r[k] == Member(j.members[i + k].key, Layout(j.members[i + k].val)))
    decreases j, 0, |j.members| - i
  {
    if i >= |j.members| then []
    else
      var m := j.members[i];
      var rest := LayoutMembers(j, i + 1);
      var head := Member(m.key, Layout(m.val));
      [head] + rest
  }

  /** The text `JSONFormatter.format` returns: the document, or the error
      message. */
  datatype Output = Document(json: Json) | Message(text: string)

  /** `JSONFormatter.format`: never fails; an encoding error becomes a
      message that starts with "Error encoding JSON: " followed by the
      error's description, which Foundation writes and is a parameter
      here. */
  function Format(n: TreeNode, describe: EncodeError -> string): (o: Output)
    ensures o.Message? ==> "Error encoding JSON: " <= o.text
  {
    var r := EncodeNode(n);
    if r.Success? then Document(Layout(r.value)) else Message("Error encoding JSON: " + describe(r.error))
  }

  // ---------------------------------------------------------------------
  // When encoding succeeds

  /** Every frame in the tree holds only finite numbers. */
  predicate AllFinite(n: TreeNode)
    decreases n
  {
    (n.frame.None? || FrameFinite(n.frame.value))
    && forall k :: 0 <= k < |n.children| ==> AllFinite(n.children[k])
  }

  /** A finite frame encodes to its four numbers; otherwise the error names
      the first non-finite one in declaration order. */
  lemma FrameEncoding(f: FrameInfo)
    ensures FrameFinite(f) <==> EncodeFrame(f) == Success(FrameObject(f))
    ensures !IsFinite(f.x) ==> EncodeFrame(f) == Failure(InvalidValue(f.x, [Key("x")]))
    ensures IsFinite(f.x) && !IsFinite(f.y) ==> EncodeFrame(f) == Failure(InvalidValue(f.y, [Key("y")]))
    ensures IsFinite(f.x) && IsFinite(f.y) && !IsFinite(f.width)
            ==> EncodeFrame(f) == Failure(InvalidValue(f.width, [Key("width")]))
    ensures IsFinite(f.x) && IsFinite(f.y) && IsFinite(f.width) && !IsFinite(f.height)
            ==> EncodeFrame(f) == Failure(InvalidValue(f.height, [Key("height")]))
    ensures EncodeFrame(f).Failure? ==> !IsFinite(EncodeFrame(f).error.number)
  {
  }

  /** Encoding succeeds exactly when every frame in the tree is finite. */
  lemma {:induction false} EncodeSucceedsIff(n: TreeNode)
    ensures EncodeNode(n).Success? <==> AllFinite(n)
    decreases n, 1, 0
  {
    ChildrenSucceedIff(n, 0);
    if n.frame.Some? {
      FrameEncoding(n.frame.value);
    }
  }

  lemma {:induction false} ChildrenSucceedIff(n: TreeNode, i: nat)
    ensures EncodeChildren(n, i).Success? <==> forall k :: i <= k < |n.children| ==> AllFinite(n.children[k])
    decreases n, 0, |n.children| - i
  {
    if i < |n.children| {
      var cs := n.children;
      EncodeSucceedsIff(cs[i]);
      ChildrenSucceedIff(n, i + 1);
      assert EncodeChildren(n, i).Success? <==> EncodeNode(cs[i]).Success? && EncodeChildren(n, i + 1).Success?;
      assert (forall k :: i <= k < |cs| ==> AllFinite(cs[k]))
         <==> AllFinite(cs[i]) && (forall k :: i + 1 <= k < |cs| ==> AllFinite(cs[k]));
    }
  }

  /** `format` returns the error message exactly when some frame holds a
      non-finite number. */
  lemma FormatFailsIff(n: TreeNode, describe: EncodeError -> string)
    ensures Format(n, describe).Message? <==> !AllFinite(n)
  {
    EncodeSucceedsIff(n);
  }

  // ---------------------------------------------------------------------
  // Where an encoding fails

  /** The frame number a coding path leads to, if any: `frame` then one
      of the four field names, or `children`, a position and a path into
      that child. */
  function NumberAt(n: TreeNode, path: seq<CodingKey>): Option<Double>
    decreases n
  {
    if |path| == 2 && path[0] == Key("frame") && n.frame.Some? then
      var f := n.frame.value;
      if path[1] == Key("x") then Some(f.x)
      else if path[1] == Key("y") then Some(f.y)
      else if path[1] == Key("width") then Some(f.width)
      else if path[1] == Key("height") then Some(f.height)
      else None
    else if |path| >= 2 && path[0] == Key("children") && path[1].Index? && path[1].pos < |n.children| then
      NumberAt(n.children[path[1].pos], path[2..])
    else None
  }

  /** A frame's error path names the field that holds its number. */
  lemma FrameErrorPath(n: TreeNode)
    requires n.frame.Some? && EncodeFrame(n.frame.value).Failure?
    ensures var e := EncodeFrame(n.frame.value).error;
            NumberAt(n, [Key("frame")] + e.path) == Some(e.number) && !IsFinite(e.number)
  {
    var e := EncodeFrame(n.frame.value).error;
    FrameEncoding(n.frame.value);
    assert ([Key("frame")] + e.path)[1] == e.path[0];
  }

  /** A failed encoding reports a non-finite number together with the
      coding path that leads to it in the tree. */
  lemma {:induction false} ErrorPathLeadsToNumber(n: TreeNode)
    requires EncodeNode(n).Failure?
    ensures var e := EncodeNode(n).error;
            NumberAt(n, e.path) == Some(e.number) && !IsFinite(e.number)
    decreases n, 1, 0
  {
    if n.frame.Some? && EncodeFrame(n.frame.value).Failure? {
      FrameErrorPath(n);
    } else {
      ChildErrorPath(n, 0);
    }
  }

  /** The failure among the children from the `i`-th on starts with the
      failing child's position, and the rest of its path leads into that
      child. */
  lemma {:induction false} ChildErrorPath(n: TreeNode, i: nat)
    requires EncodeChildren(n, i).Failure?
    ensures var e := EncodeChildren(n, i).error;
            NumberAt(n, [Key("children")] + e.path) == Some(e.number) && !IsFinite(e.number)
    decreases n, 0, |n.children| - i
  {
    var head := EncodeNode(n.children[i]);
    var e := EncodeChildren(n, i).error;
    var path := [Key("children")] + e.path;
    if head.Failure? {
      ErrorPathLeadsToNumber(n.children[i]);
      assert e == Under(Index(i), head.error);
      assert path[2..] == head.error.path;
    } else {
      ChildErrorPath(n, i + 1);
    }
  }

  // ---------------------------------------------------------------------
  // What an encoded node holds

  /** On success the `k`-th of the children's encodings from the `i`-th
      on is the encoding of child `k`. */
  lemma {:induction false} ChildItem(n: TreeNode, i: nat, items: seq<Json>, k: nat)
    requires EncodeChildren(n, i) == Success(items) && i <= k < |n.children|
    ensures k - i < |items| && EncodeNode(n.children[k]) == Success(items[k - i])
    decreases k - i
  {
    var rest := EncodeChildren(n, i + 1).value;
    assert items == [EncodeNode(n.children[i]).value] + rest;
    if k > i {
      ChildItem(n, i + 1, rest, k);
    }
  }

  /** The encoded children of a node, or nothing if one of them fails. */
  function Items(n: TreeNode): seq<Json> {
    var r := EncodeChildren(n, 0);
    if r.Success? then r.value else []
  }

  function Text(s: Option<string>): Option<Json> {
    if s.Some? then Some(JString(s.value)) else None
  }

  /** Which value, if any, an encoded node holds under `key`: each optional
      string when it is present (even when empty), the traits when present
      and non-empty, the frame when present, the children when there are
      any, and nothing under any other key. */
  function Expected(n: TreeNode, key: string): Option<Json> {
    if key == "role" then Text(n.role)
    else if key == "label" then Text(n.labelText)
    else if key == "title" then Text(n.title)
    else if key == "value" then Text(n.value)
    else if key == "identifier" then Text(n.identifier)
    else if key == "hint" then Text(n.hint)
    else if key == "traits" then
      (if n.traits.Some? && |n.traits.value| > 0 then Some(JArray(Strings(n.traits.value))) else None)
    else if key == "frame" then (if n.frame.Some? then Some(FrameObject(n.frame.value)) else None)
    else if key == "children" then (if |n.children| > 0 then Some(JArray(Items(n))) else None)
    else None
  }

  lemma IfPresentMembers(key: string, s: Option<string>)
    ensures forall k, v :: Member(k, v) in IfPresent(key, s) <==> k == key && Text(s) == Some(v)
  {
  }

  lemma ScalarMembersByKey(n: TreeNode)
    ensures forall k, v :: Member(k, v) in ScalarMembers(n) <==>
      (k == "role" || k == "label" || k == "title" || k == "value" || k == "identifier" || k == "hint" || k == "traits")
      && Expected(n, k) == Some(v)
  {
    IfPresentMembers("role", n.role);
    IfPresentMembers("label", n.labelText);
    IfPresentMembers("title", n.title);
    IfPresentMembers("value", n.value);
    IfPresentMembers("identifier", n.identifier);
    IfPresentMembers("hint", n.hint);
  }

  /** The members of an encoded node are exactly what `Expected` names. */
  lemma EncodedMembers(n: TreeNode)
    requires EncodeNode(n).Success?
    ensures EncodeNode(n).value.JObject?
    ensures forall k, v :: Member(k, v) in EncodeNode(n).value.members <==> Expected(n, k) == Some(v)
  {
    NodeMembers(n);
    ScalarMembersByKey(n);
    ExpectedExtras(n);
    var scalars, extras := ScalarMembers(n), FrameMember(n) + ChildrenMember(n);
    assert EncodeNode(n).value.members == scalars + extras;
    forall k, v
      ensures Member(k, v) in scalars + extras <==> Expected(n, k) == Some(v)
    {
      assert Member(k, v) in scalars + extras <==> Member(k, v) in scalars || Member(k, v) in extras;
    }
  }

  /** `Expected` at the frame and children keys. */
  lemma ExpectedExtras(n: TreeNode)
    ensures Expected(n, "frame") == (if n.frame.Some? then Some(FrameObject(n.frame.value)) else None)
    ensures Expected(n, "children") == (if |n.children| > 0 then Some(JArray(Items(n))) else None)
  {
  }

  function FrameMember(n: TreeNode): seq<Member> {
    if n.frame.Some? then [Member("frame", FrameObject(n.frame.value))] else []
  }

  function ChildrenMember(n: TreeNode): seq<Member> {
    if |n.children| > 0 then [Member("children", JArray(Items(n)))] else []
  }

  lemma NodeMembers(n: TreeNode)
    requires EncodeNode(n).Success?
    ensures EncodeNode(n).value == JObject(ScalarMembers(n) + FrameMember(n) + ChildrenMember(n))
  {
    if n.frame.Some? {
      EncodeSucceedsIff(n);
      FrameEncoding(n.frame.value);
    }
  }

  /** On success a node's `children` array holds, in order, the encodings
      of its child nodes. */
  lemma EncodedChildren(n: TreeNode)
    requires EncodeNode(n).Success?
    ensures |Items(n)| == |n.children|
    ensures forall k :: 0 <= k < |n.children| ==> EncodeNode(n.children[k]) == Success(Items(n)[k])
  {
    NodeChildrenSucceed(n);
    ChildrenEncoded(n, Items(n));
  }

  lemma NodeChildrenSucceed(n: TreeNode)
    requires EncodeNode(n).Success?
    ensures EncodeChildren(n, 0).Success?
  {
  }

  lemma ChildCount(n: TreeNode, items: seq<Json>)
    requires EncodeChildren(n, 0) == Success(items)
    ensures |items| == |n.children|
  {
  }

  lemma ChildrenEncoded(n: TreeNode, items: seq<Json>)
    requires EncodeChildren(n, 0) == Success(items)
    ensures |items| == |n.children|
    ensures forall k :: 0 <= k < |n.children| ==> EncodeNode(n.children[k]) == Success(items[k])
  {
    ChildCount(n, items);
    forall k | 0 <= k < |n.children|
      ensures EncodeNode(n.children[k]) == Success(items[k])
    {
      ChildItem(n, 0, items, k);
    }
  }

  // ---------------------------------------------------------------------
  // What the sorted-keys layout does

  /** Every object in the document, at every depth, is in ascending key
      order. */
  predicate WellSorted(j: Json)
    decreases j
  {
    match j
    case JArray(items) => forall k :: 0 <= k < |items| ==> WellSorted(items[k])
    case JObject(ms) => Sorted(ms) && forall k :: 0 <= k < |ms| ==> WellSorted(ms[k].val)
    case _ => true
  }

  /** A member of the sorted object is one of the laid-out members. */
  lemma SortedFrom(ms: seq<Member>, k: nat)
    requires k < |SortMembers(ms)|
    ensures exists i :: 0 <= i < |ms| && ms[i] == SortMembers(ms)[k]
  {
    assert SortMembers(ms)[k] in multiset(SortMembers(ms));
  }

  /** Sorting the members keeps every value well sorted. */
  lemma SortKeepsWellSorted(ms: seq<Member>)
    requires forall i :: 0 <= i < |ms| ==> WellSorted(ms[i].val)
    ensures forall k :: 0 <= k < |SortMembers(ms)| ==> WellSorted(SortMembers(ms)[k].val)
  {
    forall k | 0 <= k < |SortMembers(ms)|
      ensures WellSorted(SortMembers(ms)[k].val)
    {
      SortedFrom(ms, k);
    }
  }

  lemma {:induction false} LayoutWellSorted(j: Json)
    ensures WellSorted(Layout(j))
    decreases j
  {
    match j
    case JArray(items) =>
      forall k | 0 <= k < |items|
        ensures WellSorted(Layout(items[k]))
      {
        LayoutWellSorted(items[k]);
      }
    case JObject(ms) =>
      var laid := LayoutMembers(j, 0);
      forall i | 0 <= i < |laid|
        ensures WellSorted(laid[i].val)
      {
        LayoutWellSorted(ms[i].val);
      }
      SortKeepsWellSorted(laid);
    case _ =>
  }

  /** The layout reorders an object's members and lays out their values,
      and does nothing else: no member is added, dropped or renamed. */
  lemma LayoutKeepsMembers(j: Json)
    requires j.JObject?
    ensures Layout(j).JObject?
    ensures forall k, v :: Member(k, v) in Layout(j).members <==>
      exists i :: 0 <= i < |j.members| && j.members[i].key == k && Layout(j.members[i].val) == v
  {
    var laid := LayoutMembers(j, 0);
    assert Layout(j) == JObject(SortMembers(laid));
    forall k, v
      ensures Member(k, v) in SortMembers(laid) <==>
        exists i :: 0 <= i < |j.members| && j.members[i].key == k && Layout(j.members[i].val) == v
    {
      SortKeepsMember(laid, Member(k, v));
      LaidOutMember(j, k, v);
    }
  }

  lemma SortKeepsMember(ms: seq<Member>, m: Member)
    ensures m in SortMembers(ms) <==> m in ms
  {
    assert m in SortMembers(ms) <==> m in multiset(SortMembers(ms));
    assert m in ms <==> m in multiset(ms);
  }

  lemma LaidOutMember(j: Json, k: string, v: Json)
    requires j.JObject?
    ensures Member(k, v) in LayoutMembers(j, 0) <==>
      exists i :: 0 <= i < |j.members| && j.members[i].key == k && Layout(j.members[i].val) == v
  {
    var laid := LayoutMembers(j, 0);
    if Member(k, v) in laid {
      var i :| 0 <= i < |laid| && laid[i] == Member(k, v);
      assert j.members[i].key == k && Layout(j.members[i].val) == v;
    }
    if exists i :: 0 <= i < |j.members| && j.members[i].key == k && Layout(j.members[i].val) == v {
      var i :| 0 <= i < |j.members| && j.members[i].key == k && Layout(j.members[i].val) == v;
      assert laid[i] == Member(k, v);
    }
  }

  // ---------------------------------------------------------------------
  // Key order

  function Keys(ms: seq<Member>): (r: seq<string>)
    ensures |r| == |ms|
    ensures forall k :: 0 <= k < |ms| ==> r[k] == ms[k].key
  {
    if |ms| == 0 then [] else [ms[0].key] + Keys(ms[1..])
  }

  predicate Ascending(ks: seq<string>) {
    forall i, j :: 0 <= i < j < |ks| ==> LexLe(ks[i], ks[j])
  }

  lemma {:induction false} InsertKeys(m: Member, ms: seq<Member>)
    requires Sorted(ms)
    ensures multiset(Keys(Insert(m, ms))) == multiset(Keys(ms)) + multiset{m.key}
    decreases |ms|
  {
    if |ms| > 0 {
      if LexLe(m.key, ms[0].key) {
        assert Keys([m] + ms) == [m.key] + Keys(ms);
      } else {
        InsertKeys(m, ms[1..]);
        assert Keys([ms[0]] + Insert(m, ms[1..])) == [ms[0].key] + Keys(Insert(m, ms[1..]));
        assert Keys(ms) == [ms[0].key] + Keys(ms[1..]);
      }
    }
  }

  lemma SortedKeysAscend(ms: seq<Member>)
    requires Sorted(ms)
    ensures Ascending(Keys(ms))
  {
  }

  /** Sorting moves keys around but keeps each of them. */
  lemma {:induction false} SortKeepsKeys(ms: seq<Member>)
    ensures multiset(Keys(SortMembers(ms))) == multiset(Keys(ms))
  {
    if |ms| > 0 {
      SortKeepsKeys(ms[1..]);
      InsertKeys(ms[0], SortMembers(ms[1..]));
      assert Keys(ms) == [ms[0].key] + Keys(ms[1..]);
    }
  }

  lemma LexLeRefl(a: string)
    ensures LexLe(a, a)
  {
  }

  /** Two ascending key lists holding the same keys are the same list:
      the sorted order is determined by the keys alone. */
  lemma {:induction false} AscendingUnique(a: seq<string>, b: seq<string>)
    requires Ascending(a) && Ascending(b) && multiset(a) == multiset(b)
    ensures a == b
  {
    if |a| == 0 {
      assert |multiset(b)| == 0;
    } else {
      assert |b| > 0 by { assert |multiset(b)| == |multiset(a)|; }
      AscendingHeads(a, b);
      assert a == [a[0]] + a[1..] && b == [b[0]] + b[1..];
      assert multiset(a[1..]) == multiset(b[1..]) by {
        assert multiset(a[1..]) == multiset(a) - multiset{a[0]};
        assert multiset(b[1..]) == multiset(b) - multiset{b[0]};
      }
      AscendingTail(a);
      AscendingTail(b);
      AscendingUnique(a[1..], b[1..]);
    }
  }

  lemma AscendingHeads(a: seq<string>, b: seq<string>)
    requires Ascending(a) && Ascending(b) && multiset(a) == multiset(b) && |a| > 0 && |b| > 0
    ensures a[0] == b[0]
  {
    assert a[0] in multiset(b);
    var j :| 0 <= j < |b| && b[j] == a[0];
    assert b[0] in multiset(a);
    var i :| 0 <= i < |a| && a[i] == b[0];
    LexLeRefl(a[0]);
    LexLeRefl(b[0]);
    LexLeAntisym(a[0], b[0]);
  }

  lemma AscendingTail(a: seq<string>)
    requires Ascending(a) && |a| > 0
    ensures Ascending(a[1..])
  {
    assert forall i :: 0 <= i < |a| - 1 ==> a[1..][i] == a[i + 1];
  }

  /** Ascending order follows from ascending neighbours. */
  lemma {:induction false} AscendingByNeighbours(ks: seq<string>)
    requires forall i :: 0 <= i < |ks| - 1 ==> LexLe(ks[i], ks[i + 1])
    ensures Ascending(ks)
  {
    if |ks| > 1 {
      AscendingByNeighbours(ks[1..]);
      forall j | 1 < j < |ks|
        ensures LexLe(ks[0], ks[j])
      {
        assert ks[1..][j - 1] == ks[j];
        LexLeTrans(ks[0], ks[1], ks[j]);
      }
      assert forall i, j :: 1 <= i < j < |ks| ==> ks[1..][i - 1] == ks[i] && ks[1..][j - 1] == ks[j];
    }
  }

  /** The keys of the laid-out object: the keys of the object, sorted. */
  lemma {:induction false} LaidOutKeys(j: Json, sorted: seq<string>)
    requires j.JObject? && Ascending(sorted) && multiset(sorted) == multiset(Keys(j.members))
    ensures Keys(Layout(j).members) == sorted
  {
    var laid := LayoutMembers(j, 0);
    assert Keys(laid) == Keys(j.members);
    SortKeepsKeys(laid);
    SortedKeysAscend(SortMembers(laid));
    AscendingUnique(Keys(SortMembers(laid)), sorted);
  }

  /** A frame is written as height, width, x, y. */
  lemma FrameKeyOrder(f: FrameInfo)
    ensures Keys(Layout(FrameObject(f)).members) == ["height", "width", "x", "y"]
  {
    assert Keys(FrameObject(f).members) == ["x", "y", "width", "height"];
    FrameKeysSorted();
    LaidOutKeys(FrameObject(f), ["height", "width", "x", "y"]);
  }

  lemma FrameKeysSorted()
    ensures Ascending(["height", "width", "x", "y"])
    ensures multiset(["height", "width", "x", "y"]) == multiset(["x", "y", "width", "height"])
  {
    var sorted := ["height", "width", "x", "y"];
    assert LexLe("height", "width") && LexLe("width", "x") && LexLe("x", "y");
    AscendingByNeighbours(sorted);
  }

  /** A node with only a role, an empty trait list, no frame and no
      children is written as a one-member object: the empty trait list is
      left out. */
  lemma RoleOnlyNode(r: string)
    ensures var n := TreeNode(Some(r), None, None, None, None, None, Some([]), None, []);
            EncodeNode(n).Success? && Layout(EncodeNode(n).value) == JObject([Member("role", JString(r))])
  {
    var n := TreeNode(Some(r), None, None, None, None, None, Some([]), None, []);
    var j := JObject([Member("role", JString(r))]);
    assert ScalarMembers(n) == [Member("role", JString(r))];
    assert EncodeChildren(n, 0) == Success([]);
    assert ScalarMembers(n) + [] + [] == [Member("role", JString(r))];
    assert EncodeNode(n) == Success(j);
    assert LayoutMembers(j, 0) == [Member("role", JString(r))];
    assert SortMembers([Member("role", JString(r))]) == [Member("role", JString(r))];
  }

  /** The document `format` writes for a node holds, under each key, the
      laid-out form of exactly what `Expected` names, and nothing else. */
  lemma WrittenNode(n: TreeNode, describe: EncodeError -> string)
    requires AllFinite(n)
    ensures Format(n, describe).Document?
    ensures var doc := Format(n, describe).json;
      doc.JObject? && WellSorted(doc) &&
      forall k, v :: Member(k, v) in doc.members <==> exists e :: Expected(n, k) == Some(e) && v == Layout(e)
  {
    EncodeSucceedsIff(n);
    var j := EncodeNode(n).value;
    assert Format(n, describe).json == Layout(j);
    EncodedMembers(n);
    LayoutWellSorted(j);
    LaidOutExpected(j, n);
  }

  lemma LaidOutExpected(j: Json, n: TreeNode)
    requires j.JObject?
    requires forall k, v :: Member(k, v) in j.members <==> Expected(n, k) == Some(v)
    ensures Layout(j).JObject?
    ensures forall k, v :: Member(k, v) in Layout(j).members <==> exists e :: Expected(n, k) == Some(e) && v == Layout(e)
  {
    LayoutKeepsMembers(j);
    forall k, v
      ensures Member(k, v) in Layout(j).members <==> exists e :: Expected(n, k) == Some(e) && v == Layout(e)
    {
      if exists e :: Expected(n, k) == Some(e) && v == Layout(e) {
        var e :| Expected(n, k) == Some(e) && v == Layout(e);
        assert Member(k, e) in j.members;
        var i :| 0 <= i < |j.members| && j.members[i] == Member(k, e);
        assert j.members[i].key == k && Layout(j.members[i].val) == v;
      }
    }
  }
}
