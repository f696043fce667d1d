/**
 The object namespace: named objects, some of them directories with a list of children, found by
 paths of slash-separated names. An object is a number and 0 is null.
 */
module ObStore {

  const NT_OBNAME_LEN: nat := 32

  datatype Kind = Directory | Timer | Mapper

  datatype Status = Success | InvalidHandle | BadObjName | BadObjType | NotDirectory | ObjectNotFound | NoMemory

  /** The list of a directory object, if it has been allocated. */
  datatype Listing = NoListing | Children(children: seq<nat>)

  datatype NtObject = NtObject(kind: Kind, name: string, refs: nat, data: Listing)

  type Objects = map<nat, NtObject>

  /** The object types by number. */
  const KINDS: seq<Kind> := [Directory, Timer, Mapper]

  /** A C string or null. */
  datatype Text = NoText | Text(chars: string)

  /** The parameters of a creation, or null. */
  datatype Params = NoParams | Params(kind: nat, name: Text, parent: Text)

  /** What a lookup returns. */
  datatype Found = Found(id: nat) | Failed(status: Status)

  // ----- Paths

  /** The path without its leading slashes. */
  function SkipSlashes(path: string): (r: string)
    ensures |r| <= |path| && (r != "" ==> r[0] != '/')
  {
    if path != "" && path[0] == '/' then SkipSlashes(path[1..]) else path
  }

  /** The path up to its first slash. */
  function FirstName(path: string): (r: string)
    ensures '/' !in r && r <= path && (|r| < |path| ==> path[|r|] == '/')
    ensures path != "" && path[0] != '/' ==> r != ""
  {
    if path == "" || path[0] == '/' then "" else [path[0]] + FirstName(path[1..])
  }

  /** The names a path consists of; slashes in a row count as one. */
  function Components(path: string): (names: seq<string>)
    decreases |path|
  {
    var rest := SkipSlashes(path);
    if rest == "" then [] else [FirstName(rest)] + Components(rest[|FirstName(rest)|..])
  }

  /** A name that can be a component of a path. */
  predicate PlainName(name: string) {
    0 < |name| < NT_OBNAME_LEN - 1 && '/' !in name
  }

  // ----- Looking up

  /** The first child called `name`, 0 if there is none. */
  function FirstChild(objs: Objects, children: seq<nat>, name: string): nat {
    if children == [] then 0
    else if children[0] in objs && objs[children[0]].name == name then children[0]
    else FirstChild(objs, children[1..], name)
  }

  /** Child number `i` is called `name`, and no earlier child is. */
  ghost predicate FirstNamed(objs: Objects, children: seq<nat>, i: nat, name: string) {
    && i < |children| && IsCalled(objs, children[i], name)
    && forall j: nat :: j < i ==> !IsCalled(objs, children[j], name)
  }

  predicate IsCalled(objs: Objects, id: nat, name: string) {
    id in objs && objs[id].name == name
  }

  /** What a lookup of one name promises. */
  ghost predicate LooksUp(objs: Objects, parent: nat, name: string, r: Found) {
    if parent !in objs then r == Failed(InvalidHandle)
    else if objs[parent].kind != Directory then r == Failed(BadObjType)
    else
      match objs[parent].data
      case NoListing => r == Failed(ObjectNotFound)
      case Children(children) =>
        match r
        case Found(c) => exists i: nat :: FirstNamed(objs, children, i, name) && children[i] == c
        case Failed(status) => status == ObjectNotFound && forall c :: c in children ==> !IsCalled(objs, c, name)
  }

  /** `way` goes down from `cur` along `names`, one lookup a name, to the end or to the name that gives failure `r`. */
  ghost predicate Descends(objs: Objects, cur: nat, names: seq<string>, way: seq<nat>, r: Found) {
    && 0 < |way| <= |names| + 1 && way[0] == cur
    && (forall k: nat :: k + 1 < |way| ==> |names[k]| < 31 && LooksUp(objs, way[k], names[k], Found(way[k + 1])))
    && match r
       case Found(id) => |way| == |names| + 1 && id == way[|names|]
       case Failed(status) =>
         && |way| <= |names|
         && if |names[|way| - 1]| >= 31 then status == BadObjName
            else LooksUp(objs, way[|way| - 1], names[|way| - 1], r)
  }

  /** `obDirectoryLookup` as a function of the objects. */
  function Child(objs: Objects, parent: nat, name: string): Found {
    if parent !in objs then Failed(InvalidHandle)
    else if objs[parent].kind != Directory then Failed(BadObjType)
    else if objs[parent].data.NoListing? then Failed(ObjectNotFound)
    else
      var c := FirstChild(objs, objs[parent].data.children, name);
      if c == 0 then Failed(ObjectNotFound) else Found(c)
  }

  /** Going down from `cur` name by name; a name that is too long ends the descent before its lookup. */
  function Resolve(objs: Objects, cur: nat, names: seq<string>): Found
    decreases |names|
  {
    if names == [] then Found(cur)
    else if |names[0]| >= NT_OBNAME_LEN - 1 then Failed(BadObjName)
    else
      match Child(objs, cur, names[0])
      case Failed(status) => Failed(status)
      case Found(c) => Resolve(objs, c, names[1..])
  }

  class Store {
    var objs: Objects
    var root: nat

    /** Every child of every directory exists, and so does the root; 0 is no object. */
    ghost predicate Valid()
      reads this
    {
      Sound(objs) && root in objs
    }

    /** `kiObjStoreInit` */
    constructor (rootId: nat)
      requires rootId != 0
      ensures Valid() && root == rootId && objs == map[rootId := NtObject(Directory, "/", 1, Children([]))]
    {
      root := rootId;
      objs := map[rootId := NtObject(Directory, "/", 1, Children([]))];
    }

    /** `obDirectoryLookup` */
    method DirectoryLookup(parent: nat, name: string) returns (r: Found)
      requires Valid()
      ensures r == Child(objs, parent, name)
      ensures LooksUp(objs, parent, name, r)
    {
      ChildLaw(objs, parent, name);
      if parent !in objs {
        return Failed(InvalidHandle);
      }
      if objs[parent].kind != Directory {
        return Failed(BadObjType);
      }
      if objs[parent].data.NoListing? {
        return Failed(ObjectNotFound);
      }
      var children := objs[parent].data.children;
      var i := 0;
      while i < |children|
        invariant i <= |children| && FirstChild(objs, children, name) == FirstChild(objs, children[i..], name)
      {
        assert children[i] in objs && children[i..][1..] == children[i + 1..];
        if objs[children[i]].name == name {
          return Found(children[i]);
        }
        i := i + 1;
      }
      r := Failed(ObjectNotFound);
    }

    /** The loop that skips slashes, at the start of a path and behind each name. */
    method SkipDelimiters(path: string, from: nat) returns (tail: nat)
      requires from <= |path|
      ensures from <= tail <= |path| && (tail < |path| ==> path[tail] != '/')
      ensures Components(path[tail..]) == Components(path[from..])
    {
      hide Components;
      hide SkipSlashes;
      tail := from;
      while tail < |path| && path[tail] == '/'
        invariant from <= tail <= |path| && SkipSlashes(path[from..]) == SkipSlashes(path[tail..])
      {
        SkipOne(path, tail);
        tail := tail + 1;
      }
      SameComponents(path[from..], path[tail..]);
    }

    /** The loop that collects a name, which stops early when the name fills the buffer. */
    method CollectName(path: string, start: nat) returns (component: string, tail: nat)
      requires start < |path| && path[start] != '/'
      ensures start < tail <= |path|
      ensures |component| < NT_OBNAME_LEN - 1 ==> component == FirstName(path[start..]) && path[tail..] == path[start..][|component|..]
      ensures |component| >= NT_OBNAME_LEN - 1 ==> |FirstName(path[start..])| >= NT_OBNAME_LEN - 1
    {
      hide *;
      tail := start;
      component := "";
      NameStarts(path, start);
      while tail < |path| && path[tail] != '/'
        invariant start <= tail <= |path| && |component| == tail - start < NT_OBNAME_LEN - 1
        invariant Collected(path, start, tail, component)
        invariant tail == start ==> path[tail] != '/'
      {
        NameOne(path, start, tail, component);
        component := component + [path[tail]];
        tail := tail + 1;
        if |component| >= NT_OBNAME_LEN - 1 {
          return;
        }
      }
      NameEnds(path, start, tail, component);
    }

    lemma LookupLaw(names: seq<string>)
      requires Valid()
      ensures var r := Resolve(objs, root, names);
              && (exists way :: Descends(objs, root, names, way, r))
              && (r.Found? ==> r.id in objs && (names != [] ==> objs[r.id].name == names[|names| - 1]))
    {
      hide Descends;
      hide Resolve;
      ghost var _ := ResolveDescends(objs, root, names);
      ResolvedIsCalled(objs, root, names);
    }

    /** `obLookupObject`: the loops skip slashes, collect a name, and go down. */
    method LookupObject(path: string) returns (r: Found)
      requires Valid()
      ensures r == Resolve(objs, root, Components(path))
      ensures exists way :: Descends(objs, root, Components(path), way, r)
      ensures r.Found? ==> r.id in objs
      ensures r.Found? && Components(path) != [] ==> objs[r.id].name == Components(path)[|Components(path)| - 1]
    {
      hide *;
      LookupLaw(Components(path));
      assert path[0..] == path;
      var tail := SkipDelimiters(path, 0);
      if tail == |path| {
        assert path[tail..] == "";
        NoComponents(objs, root);
        return Found(root);
      }
      var cur := root;
      while tail < |path|
        invariant tail <= |path| && (tail < |path| ==> path[tail] != '/')
        invariant Resolve(objs, root, Components(path)) == Resolve(objs, cur, Components(path[tail..]))
        decreases |path| - tail
      {
        ghost var rest := path[tail..];
        var component, next := CollectName(path, tail);
        if |component| >= NT_OBNAME_LEN - 1 {
          LongName(objs, cur, rest);
          return Failed(BadObjName);
        }
        OneDown(objs, cur, rest, path[next..]);
        var status := DirectoryLookup(cur, component);
        if status.Failed? {
          return status;
        }
        cur := status.id;
        tail := SkipDelimiters(path, next);
      }
      assert path[tail..] == "";
      NoComponents(objs, cur);
      r := Found(cur);
    }

    /** `obDirectoryAdd`, whose failures its only caller ignores. */
    method DirectoryAdd(parent: nat, child: nat) returns (status: Status)
      requires Valid() && child in objs
      modifies this
      ensures Valid() && root == old(root)
      ensures objs == Added(old(objs), parent, child)
      ensures status == (if parent !in old(objs) then InvalidHandle
                         else if old(objs)[parent].kind != Directory then NotDirectory
                         else if old(objs)[parent].data.NoListing? then ObjectNotFound else Success)
    {
      if parent !in objs {
        return InvalidHandle;
      }
      if objs[parent].kind != Directory {
        return NotDirectory;
      }
      if objs[parent].data.NoListing? {
        return ObjectNotFound;
      }
      AddedSound(objs, parent, child);
      objs := objs[parent := objs[parent].(data := Children(objs[parent].data.children + [child]))];
      status := Success;
    }

    /**
     The part of `obCreateObject` behind its checks of the parameters: `newId` is what the pool hands
     out, 0 when it is exhausted; the parent is a path, or none.
     */
    method CreateNamed(hasParent: bool, parentPath: string, name: string, kind: Kind, newId: nat)
      returns (status: Status, result: nat)
      requires Valid() && newId !in objs
      modifies this
      ensures Valid() && root == old(root)
      ensures var r := Create(old(objs), old(root), hasParent, parentPath, name, kind, newId);
              status == r.status && objs == r.objs && (status == Success ==> result == newId)
    {
      hide Resolve;
      hide Components;
      hide Added;
      hide Sound;
      result := 0;
      var parent := 0;
      if hasParent {
        var looked := LookupObject(parentPath);
        if looked.Failed? {
          return BadObjName, 0;
        }
        parent := looked.id;
        ResolvedExists(objs, root, Components(parentPath));
        if objs[parent].kind != Directory {
          return NotDirectory, 0;
        }
      }
      var nameLen := |name|;
      if nameLen == 0 || nameLen >= NT_OBNAME_LEN - 1 {
        return BadObjName, 0;
      }
      if newId == 0 {
        return NoMemory, 0;
      }
      ghost var objs0 := objs;
      NewSound(objs, newId, NtObject(kind, name, if hasParent then 2 else 1, NoListing));
      objs := objs[newId := NtObject(kind, name, 1, NoListing)];
      if hasParent {
        objs := objs[newId := objs[newId].(refs := objs[newId].refs + 1)];
        assert objs == objs0[newId := NtObject(kind, name, 2, NoListing)];
        var _ := DirectoryAdd(parent, newId);
      }
      return Success, newId;
    }

    /** `obCreateObject` */
    method CreateObject(params: Params, newId: nat) returns (status: Status, result: nat)
      requires Valid() && newId !in objs
      modifies this
      ensures Valid() && root == old(root)
      ensures var r := CreateChecked(old(objs), old(root), params, newId);
              status == r.status && objs == r.objs && (status == Success ==> result == newId)
    {
      if params.NoParams? {
        return InvalidHandle, 0;
      }
      if params.kind >= |KINDS| {
        return BadObjType, 0;
      }
      if params.name.NoText? {
        return BadObjName, 0;
      }
      var parentPath := if params.parent.Text? then params.parent.chars else "";
      status, result := CreateNamed(params.parent.Text?, parentPath, params.name.chars, KINDS[params.kind], newId);
    }

    /** `obAllocateDir` */
    method AllocateDir(dirObj: nat, memory: bool) returns (status: Status)
      requires Valid()
      modifies this
      ensures Valid() && root == old(root)
      ensures status == (if dirObj !in old(objs) then InvalidHandle
                         else if old(objs)[dirObj].kind != Directory then NotDirectory
                         else if !memory then NoMemory else Success)
      ensures objs == if status == Success then old(objs)[dirObj := old(objs)[dirObj].(data := Children([]))] else old(objs)
    {
      if dirObj !in objs {
        return InvalidHandle;
      }
      if objs[dirObj].kind != Directory {
        return NotDirectory;
      }
      if !memory {
        return NoMemory;
      }
      objs := objs[dirObj := objs[dirObj].(data := Children([]))];
      status := Success;
    }
  }

  // ----- Creating, as a function of the objects

  /** Every child of every directory exists; 0 is no object. */
  ghost predicate Sound(objs: Objects) {
    && 0 !in objs
    && forall d, c :: d in objs && objs[d].data.Children? && c in objs[d].data.children ==> c in objs
  }

  ghost function Added(objs: Objects, parent: nat, child: nat): Objects {
    if parent in objs && objs[parent].kind == Directory && objs[parent].data.Children? then
      objs[parent := objs[parent].(data := Children(objs[parent].data.children + [child]))]
    else objs
  }

  lemma AddedSound(objs: Objects, parent: nat, child: nat)
    requires Sound(objs) && child in objs
    ensures Sound(Added(objs, parent, child))
  {}

  lemma NewSound(objs: Objects, id: nat, o: NtObject)
    requires Sound(objs) && id != 0 && o.data.NoListing?
    ensures Sound(objs[id := o])
  {}

  datatype Created = Created(status: Status, objs: Objects)

  ghost function Create(objs: Objects, root: nat, hasParent: bool, parentPath: string, name: string, kind: Kind, newId: nat): Created {
    var looked := Resolve(objs, root, Components(parentPath));
    if hasParent && looked.Failed? then Created(BadObjName, objs)
    else if hasParent && (looked.id !in objs || objs[looked.id].kind != Directory) then Created(NotDirectory, objs)
    else if |name| == 0 || |name| >= NT_OBNAME_LEN - 1 then Created(BadObjName, objs)
    else if newId == 0 then Created(NoMemory, objs)
    else if hasParent then
      Created(Success, Added(objs[newId := NtObject(kind, name, 2, NoListing)], looked.id, newId))
    else
      Created(Success, objs[newId := NtObject(kind, name, 1, NoListing)])
  }

  ghost function CreateChecked(objs: Objects, root: nat, params: Params, newId: nat): Created {
    if params.NoParams? then Created(InvalidHandle, objs)
    else if params.kind >= |KINDS| then Created(BadObjType, objs)
    else if params.name.NoText? then Created(BadObjName, objs)
    else
      Create(objs, root, params.parent.Text?, if params.parent.Text? then params.parent.chars else "",
             params.name.chars, KINDS[params.kind], newId)
  }

  /** A failed creation leaves the objects alone; a successful one adds an object with the name and kind asked for. */
  lemma CreatedOrUnchanged(objs: Objects, root: nat, params: Params, newId: nat)
    requires Sound(objs) && newId !in objs
    ensures var r := CreateChecked(objs, root, params, newId);
            if r.status != Success then r.objs == objs
            else
              && params.Params? && params.kind < |KINDS| && params.name.Text? && 0 < |params.name.chars| < NT_OBNAME_LEN - 1
              && newId != 0 && r.objs.Keys == objs.Keys + {newId} && r.objs[newId].name == params.name.chars
              && r.objs[newId].kind == KINDS[params.kind] && r.objs[newId].refs == (if params.parent.Text? then 2 else 1)
  {
    hide Resolve;
    hide Components;
  }

  /** What a parent path comes to: a directory, some other object, or nothing. */
  datatype Place = NoPlace | NoDirectory | At(id: nat)

  ghost function PlaceOf(objs: Objects, root: nat, path: string): Place {
    match Resolve(objs, root, Components(path))
    case Failed(_) => NoPlace
    case Found(id) => if id in objs && objs[id].kind == Directory then At(id) else NoDirectory
  }

  /** Which status a creation returns. */
  lemma CreateStatus(objs: Objects, root: nat, params: Params, newId: nat)
    ensures var status := CreateChecked(objs, root, params, newId).status;
            && (status == InvalidHandle <==> params.NoParams?)
            && (status == BadObjType <==> params.Params? && params.kind > 2)
            && (params.Params? && params.kind <= 2 ==>
                  var orphan := params.parent.NoText?;
                  var place := if orphan then NoPlace else PlaceOf(objs, root, params.parent.chars);
                  var named := params.name.Text? && 1 <= |params.name.chars| <= 30;
                  && (status == NotDirectory <==> params.name.Text? && !orphan && place == NoDirectory)
                  && (status == BadObjName <==>
                        || params.name.NoText? || (!orphan && place == NoPlace)
                        || ((orphan || place.At?) && !named))
                  && (status == NoMemory <==> named && (orphan || place.At?) && newId == 0)
                  && (status == Success <==> named && (orphan || place.At?) && newId != 0))
  {
    hide Resolve;
    hide Components;
    hide Added;
  }

  /** What a successful creation makes: one object, at the end of the list of its parent if that has one, and nothing else. */
  lemma CreateEffect(objs: Objects, root: nat, params: Params, newId: nat)
    requires CreateChecked(objs, root, params, newId).status == Success && newId !in objs
    ensures var r := CreateChecked(objs, root, params, newId).objs;
            && newId in r && r[newId].data == NoListing && r[newId].name == params.name.chars
            && (r[newId].kind == Directory <==> params.kind == 0) && (r[newId].kind == Timer <==> params.kind == 1)
            && r.Keys == objs.Keys + {newId}
            && forall d {:trigger r[d]} :: d in objs ==>
                 r[d] == if params.parent.Text? && PlaceOf(objs, root, params.parent.chars) == At(d) && objs[d].data.Children?
                         then objs[d].(data := Children(objs[d].data.children + [newId])) else objs[d]
  {
    hide Resolve;
    hide Components;
  }

  // ----- Laws of lookup

  lemma {:induction false} FirstChildIn(objs: Objects, children: seq<nat>, name: string)
    ensures var c := FirstChild(objs, children, name); c != 0 ==> c in children && c in objs
    decreases |children|
  {
    if children != [] {
      FirstChildIn(objs, children[1..], name);
    }
  }

  /** The search stops at the first child of the name asked for, and at 0 when there is none. */
  lemma {:induction false} FirstChildLaw(objs: Objects, children: seq<nat>, name: string)
    requires 0 !in objs
    ensures var c := FirstChild(objs, children, name);
            if c == 0 then forall d :: d in children ==> !IsCalled(objs, d, name)
            else exists i: nat :: FirstNamed(objs, children, i, name) && children[i] == c
    decreases |children|
  {
    if children != [] {
      if IsCalled(objs, children[0], name) {
        assert FirstNamed(objs, children, 0, name);
      } else {
        FirstChildLaw(objs, children[1..], name);
        if FirstChild(objs, children, name) != 0 {
          var i: nat :| FirstNamed(objs, children[1..], i, name) && children[1..][i] == FirstChild(objs, children, name);
          assert forall j: nat :: 0 < j <= i ==> children[j] == children[1..][j - 1];
          assert FirstNamed(objs, children, i + 1, name);
        }
      }
    }
  }

  lemma ChildLaw(objs: Objects, parent: nat, name: string)
    requires Sound(objs)
    ensures LooksUp(objs, parent, name, Child(objs, parent, name))
  {
    if parent in objs && objs[parent].data.Children? {
      FirstChildLaw(objs, objs[parent].data.children, name);
    }
  }

  /** A lookup has one answer. */
  lemma OneAnswer(objs: Objects, parent: nat, name: string, r: Found)
    requires Sound(objs)
    ensures LooksUp(objs, parent, name, r) <==> r == Child(objs, parent, name)
  {
    ChildLaw(objs, parent, name);
    var r' := Child(objs, parent, name);
    if LooksUp(objs, parent, name, r) && r.Found? && r'.Found? {
      var children := objs[parent].data.children;
      var i: nat :| FirstNamed(objs, children, i, name) && children[i] == r.id;
      var j: nat :| FirstNamed(objs, children, j, name) && children[j] == r'.id;
      assert i == j;
    }
  }

  /** The objects a path leads through, up to the name at which it fails. */
  lemma {:induction false} ResolveDescends(objs: Objects, cur: nat, names: seq<string>) returns (way: seq<nat>)
    requires Sound(objs)
    ensures Descends(objs, cur, names, way, Resolve(objs, cur, names))
    decreases |names|
  {
    way := [cur];
    if names != [] && |names[0]| < 31 {
      var c := Child(objs, cur, names[0]);
      ChildLaw(objs, cur, names[0]);
      if c.Found? {
        var below := ResolveDescends(objs, c.id, names[1..]);
        way := [cur] + below;
        forall k: nat | k + 1 < |way| ensures |names[k]| < 31 && LooksUp(objs, way[k], names[k], Found(way[k + 1])) {
          if k > 0 {
            assert names[k] == names[1..][k - 1] && way[k] == below[k - 1] && way[k + 1] == below[k];
          }
        }
      }
    }
  }

  /** A descent has one outcome, the one that `Resolve` computes. */
  lemma {:induction false} OneOutcome(objs: Objects, cur: nat, names: seq<string>, way: seq<nat>, r: Found)
    requires Sound(objs) && Descends(objs, cur, names, way, r)
    ensures r == Resolve(objs, cur, names)
    decreases |names|
  {
    if names != [] && |names[0]| < 31 {
      OneAnswer(objs, cur, names[0], if |way| > 1 then Found(way[1]) else r);
      if |way| > 1 {
        var below := way[1..];
        forall k: nat | k + 1 < |below|
          ensures |names[1..][k]| < 31 && LooksUp(objs, below[k], names[1..][k], Found(below[k + 1]))
        {
          assert names[1..][k] == names[k + 1] && below[k] == way[k + 1] && below[k + 1] == way[k + 2];
        }
        OneOutcome(objs, way[1], names[1..], below, r);
      }
    }
  }

  /** What a path resolves to exists and is called like the last name of the path. */
  lemma ResolvedIsCalled(objs: Objects, cur: nat, names: seq<string>)
    requires Sound(objs) && cur in objs
    ensures var r := Resolve(objs, cur, names);
            r.Found? ==> r.id in objs && (names != [] ==> objs[r.id].name == names[|names| - 1])
  {
    ResolvedExists(objs, cur, names);
    var way := ResolveDescends(objs, cur, names);
    if names != [] && Resolve(objs, cur, names).Found? {
      var n := |names| - 1;
      assert LooksUp(objs, way[n], names[n], Found(way[n + 1]));
    }
  }

  /** Whatever a path resolves to exists. */
  lemma {:induction false} ResolvedExists(objs: Objects, cur: nat, names: seq<string>)
    requires Sound(objs) && cur in objs
    ensures var r := Resolve(objs, cur, names); r.Found? ==> r.id in objs
    decreases |names|
  {
    if names != [] {
      var c := Child(objs, cur, names[0]);
      if c.Found? {
        FirstChildIn(objs, objs[cur].data.children, names[0]);
        ResolvedExists(objs, c.id, names[1..]);
      }
    }
  }

  lemma OneDown(objs: Objects, cur: nat, rest: string, tail: string)
    requires rest != "" && rest[0] != '/' && tail == rest[|FirstName(rest)|..] && |FirstName(rest)| < NT_OBNAME_LEN - 1
    ensures Resolve(objs, cur, Components(rest)) ==
            match Child(objs, cur, FirstName(rest))
            case Failed(status) => Failed(status)
            case Found(c) => Resolve(objs, c, Components(tail))
  {
    assert SkipSlashes(rest) == rest;
    assert Components(rest)[1..] == Components(tail);
  }

  lemma LongName(objs: Objects, cur: nat, rest: string)
    requires rest != "" && rest[0] != '/' && |FirstName(rest)| >= NT_OBNAME_LEN - 1
    ensures Resolve(objs, cur, Components(rest)) == Failed(BadObjName)
  {
    assert SkipSlashes(rest) == rest;
  }

  lemma SameComponents(a: string, b: string)
    requires SkipSlashes(a) == SkipSlashes(b)
    ensures Components(a) == Components(b)
  {}

  lemma SkipOne(path: string, tail: nat)
    requires tail < |path| && path[tail] == '/'
    ensures SkipSlashes(path[tail..]) == SkipSlashes(path[tail + 1..])
  {
    assert path[tail..][1..] == path[tail + 1..];
  }

  /** `component` is what stands between `start` and `tail`, where the name that starts there goes on. */
  ghost predicate Collected(path: string, start: nat, tail: nat, component: string) {
    start <= tail <= |path| && |component| == tail - start
    && FirstName(path[start..]) == component + FirstName(path[tail..])
  }

  lemma NameStarts(path: string, start: nat)
    requires start <= |path|
    ensures Collected(path, start, start, "") && 0 < NT_OBNAME_LEN - 1
  {
    assert "" + FirstName(path[start..]) == FirstName(path[start..]);
  }

  /** One more character of the name. */
  lemma NameOne(path: string, start: nat, tail: nat, component: string)
    requires Collected(path, start, tail, component) && tail < |path| && path[tail] != '/'
    ensures Collected(path, start, tail + 1, component + [path[tail]])
    ensures |FirstName(path[start..])| >= |component| + 1
  {
    FirstCharacter(path, tail);
    var rest := FirstName(path[tail + 1..]);
    hide FirstName;
    assert component + ([path[tail]] + rest) == component + [path[tail]] + rest;
  }

  lemma FirstCharacter(path: string, tail: nat)
    requires tail < |path| && path[tail] != '/'
    ensures FirstName(path[tail..]) == [path[tail]] + FirstName(path[tail + 1..])
  {
    assert path[tail..][1..] == path[tail + 1..];
  }

  /** A name has been collected up to a slash or the end. */
  lemma NameEnds(path: string, start: nat, tail: nat, component: string)
    requires Collected(path, start, tail, component) && (tail < |path| ==> path[tail] == '/')
    ensures component == FirstName(path[start..]) && path[tail..] == path[start..][|component|..]
  {
    assert FirstName(path[tail..]) == "";
  }

  lemma NoComponents(objs: Objects, cur: nat)
    ensures Resolve(objs, cur, Components("")) == Found(cur)
  {}

  /** Descending along two rows of names is descending along the first and then along the second. */
  lemma {:induction false} ResolveInTwo(objs: Objects, cur: nat, a: seq<string>, b: seq<string>)
    ensures Resolve(objs, cur, a + b) ==
            match Resolve(objs, cur, a)
            case Failed(status) => Failed(status)
            case Found(c) => Resolve(objs, c, b)
    decreases |a|
  {
    if a == [] {
      assert a + b == b;
    } else {
      assert (a + b)[1..] == a[1..] + b;
      var c := Child(objs, cur, a[0]);
      if c.Found? {
        ResolveInTwo(objs, c.id, a[1..], b);
      }
    }
  }

  /** Whether a path ends in a name rather than in a slash. */
  predicate EndsInName(path: string) {
    path != "" && path[|path| - 1] != '/'
  }

  /** The names with one more character, which goes on with the last name if `on`. */
  ghost function WithCharacter(names: seq<string>, on: bool, c: char): seq<string> {
    if c == '/' then names
    else if on && names != [] then names[..|names| - 1] + [names[|names| - 1] + [c]]
    else names + [[c]]
  }

  /** Characters are added at the end, so names in front stay. */
  lemma NameInFront(first: string, names: seq<string>, on: bool, c: char)
    requires names != [] || !on
    ensures WithCharacter([first] + names, on, c) == [first] + WithCharacter(names, on, c)
  {
    if on {
      assert ([first] + names)[..|names|] == [first] + names[..|names| - 1];
    }
  }

  /**
   The names of a path, character by character: a slash at the end adds nothing, any other character
   goes on with the last name, or starts a new one at the start of the path and behind a slash.
   */
  lemma {:induction false} ComponentsGrow(path: string, c: char)
    ensures Components("") == [] && (EndsInName(path) ==> Components(path) != [])
    ensures Components(path + [c]) == WithCharacter(Components(path), EndsInName(path), c)
    decreases |path|
  {
    if path == "" {
      OneCharacter(c);
      assert path + [c] == [c];
    } else if path[0] == '/' {
      SlashInFront(path, c);
      ComponentsGrow(path[1..], c);
      hide *;
    } else {
      var n := |FirstName(path)|;
      FirstAndRest(path);
      GrowFirst(path, c);
      if n < |path| {
        ComponentsGrow(path[n..], c);
        NameInFront(FirstName(path), Components(path[n..]), EndsInName(path), c);
        RestEnds(path, n);
      } else {
        WholePath(path, c);
      }
      hide *;
    }
  }

  lemma SlashInFront(path: string, c: char)
    requires path != "" && path[0] == '/'
    ensures Components(path) == Components(path[1..]) && Components(path + [c]) == Components(path[1..] + [c])
    ensures EndsInName(path) == EndsInName(path[1..])
    ensures Components("") == []
  {
    assert (path + [c])[1..] == path[1..] + [c];
    SameComponents(path + [c], path[1..] + [c]);
    SameComponents(path, path[1..]);
  }

  lemma RestEnds(path: string, n: nat)
    requires n < |path|
    ensures EndsInName(path) == EndsInName(path[n..])
  {}

  lemma WholePath(path: string, c: char)
    requires path != "" && |FirstName(path)| == |path|
    ensures EndsInName(path) && WithCharacter([path], true, c) == if c == '/' then [path] else [path + [c]]
  {
    assert path[|path| - 1] == FirstName(path)[|path| - 1] && path[|path| - 1] in FirstName(path);
  }

  lemma OneCharacter(c: char)
    ensures Components("") == [] && Components([c]) == if c == '/' then [] else [[c]]
  {
    if c == '/' {
      SameComponents([c], "");
    } else {
      PlainIsOne([c]);
    }
  }

  lemma FirstAndRest(path: string)
    requires path != "" && path[0] != '/'
    ensures Components(path) == [FirstName(path)] + Components(path[|FirstName(path)|..])
    ensures |FirstName(path)| == |path| ==> Components(path) == [path]
  {
    assert SkipSlashes(path) == path;
    OneCharacter('/');
    if |FirstName(path)| == |path| {
      assert path[|FirstName(path)|..] == "" && FirstName(path) == path;
    }
  }

  lemma GrowFirst(path: string, c: char)
    requires path != "" && path[0] != '/'
    ensures var n := |FirstName(path)|;
            Components(path + [c]) ==
              if n < |path| then [FirstName(path)] + Components(path[n..] + [c])
              else if c == '/' then [path] else [path + [c]]
  {
    hide *;
    var n := |FirstName(path)|;
    FirstAndRest(path + [c]);
    GrowName(path, c);
    OneCharacter(c);
    SplitLonger(path, c, n);
    if n == |path| {
      assert FirstName(path) == path;
    }
  }

  lemma SplitLonger(path: string, c: char, n: nat)
    requires n <= |path|
    ensures (path + [c])[n..] == path[n..] + [c]
    ensures n == |path| ==> path[n..] + [c] == [c]
  {}

  /** The first name of a path with one more character. */
  lemma {:induction false} GrowName(path: string, c: char)
    requires path != "" && path[0] != '/'
    ensures var name := FirstName(path);
            FirstName(path + [c]) == if |name| == |path| && c != '/' then path + [c] else name
    decreases |path|
  {
    assert (path + [c])[1..] == path[1..] + [c];
    if path[1..] == "" {
      assert path == [path[0]] && (path + [c])[1..] == [c] && [c][1..] == "";
    } else if path[1] != '/' {
      GrowName(path[1..], c);
      assert [path[0]] + path[1..] == path;
      assert [path[0]] + (path[1..] + [c]) == path + [c];
    }
  }

  /** Appending a slash and a name to a path appends one component. */
  lemma AppendName(path: string, name: string)
    requires name != "" && '/' !in name
    ensures Components(path + "/" + name) == Components(path) + [name]
  {
    hide Components;
    ComponentsGrow(path, '/');
    assert path + ['/'] == path + "/";
    NameBehindSlash(path + "/", name);
  }

  lemma {:induction false} NameBehindSlash(path: string, name: string)
    requires !EndsInName(path) && name != "" && '/' !in name
    ensures Components(path + name) == Components(path) + [name] && EndsInName(path + name)
    decreases |name|
  {
    hide *;
    var n := |name| - 1;
    var c := name[n];
    var names := Components(path);
    LastCharacter(path, name);
    if n == 0 {
      ComponentsGrow(path, c);
      MoreOfName(names, "", c);
    } else {
      NameBehindSlash(path, name[..n]);
      ComponentsGrow(path + name[..n], c);
      MoreOfName(names, name[..n], c);
    }
  }

  lemma LastCharacter(path: string, name: string)
    requires name != "" && '/' !in name
    ensures var n := |name| - 1;
            && name[n] != '/' && '/' !in name[..n] && name[..n] + [name[n]] == name && EndsInName(path + name)
            && (if n == 0 then path + [name[0]] == path + name && name == [name[0]] else path + name[..n] + [name[n]] == path + name)
  {
    var n := |name| - 1;
    assert name[n] in name && forall c :: c in name[..n] ==> c in name;
    assert (path + name)[|path + name| - 1] == name[n];
  }

  lemma MoreOfName(names: seq<string>, part: string, c: char)
    requires c != '/'
    ensures WithCharacter(names, false, c) == names + [[c]]
    ensures WithCharacter(names + [part], true, c) == names + [part + [c]]
  {
    assert (names + [part])[..|names|] == names;
  }

  lemma {:induction false} PlainIsOne(name: string)
    requires name != "" && '/' !in name
    ensures Components(name) == [name]
  {
    WholeName(name);
    assert name[|name|..] == "";
  }

  lemma {:induction false} WholeName(name: string)
    requires '/' !in name
    ensures FirstName(name) == name
    decreases |name|
  {
    if name != "" {
      assert name[0] in name;
      assert forall c :: c in name[1..] ==> c in name;
      WholeName(name[1..]);
    }
  }

  // ----- What creation does to the namespace

  /** The objects after a creation: one more, and possibly one more child at the end of one directory. */
  ghost predicate Grows(a: Objects, b: Objects) {
    forall d {:trigger b[d]} {:trigger a[d]} :: d in a ==>
      && d in b && b[d].kind == a[d].kind && b[d].name == a[d].name
      && (a[d].data.Children? ==> b[d].data.Children? && a[d].data.children <= b[d].data.children)
      && (a[d].data.NoListing? ==> b[d].data.NoListing?)
  }

  lemma CreateGrows(objs: Objects, root: nat, hasParent: bool, parentPath: string, name: string, kind: Kind, newId: nat)
    requires newId !in objs
    ensures Grows(objs, Create(objs, root, hasParent, parentPath, name, kind, newId).objs)
  {
    hide Resolve;
    hide Components;
  }

  lemma {:induction false} FirstChildStays(a: Objects, b: Objects, s: seq<nat>, t: seq<nat>, name: string)
    requires Grows(a, b) && s <= t && (forall c :: c in s ==> c in a) && FirstChild(a, s, name) != 0
    ensures FirstChild(b, t, name) == FirstChild(a, s, name)
    decreases |s|
  {
    if s != [] {
      assert s[0] in s && t[0] == s[0];
      if a[s[0]].name != name {
        assert s[1..] <= t[1..];
        FirstChildStays(a, b, s[1..], t[1..], name);
      }
    }
  }

  /** A path that resolves goes on resolving to the same object, whatever is created later. */
  lemma {:induction false} ResolveStays(a: Objects, b: Objects, cur: nat, names: seq<string>)
    requires Sound(a) && Grows(a, b) && cur in a && Resolve(a, cur, names).Found?
    ensures Resolve(b, cur, names) == Resolve(a, cur, names)
    decreases |names|
  {
    if names != [] {
      var c := Child(a, cur, names[0]);
      if c.Found? {
        FirstChildIn(a, a[cur].data.children, names[0]);
        FirstChildStays(a, b, a[cur].data.children, b[cur].data.children, names[0]);
        ResolveStays(a, b, c.id, names[1..]);
      }
    }
  }

  /** Creations never change what an already resolving path resolves to. */
  lemma CreateKeepsPaths(objs: Objects, root: nat, hasParent: bool, parentPath: string, name: string, kind: Kind, newId: nat, path: string)
    requires Sound(objs) && root in objs && newId !in objs && Resolve(objs, root, Components(path)).Found?
    ensures var after := Create(objs, root, hasParent, parentPath, name, kind, newId).objs;
            Resolve(after, root, Components(path)) == Resolve(objs, root, Components(path))
  {
    hide Components;
    hide Create;
    CreateGrows(objs, root, hasParent, parentPath, name, kind, newId);
    ResolveStays(objs, Create(objs, root, hasParent, parentPath, name, kind, newId).objs, root, Components(path));
  }

  lemma {:induction false} LastChild(a: Objects, b: Objects, s: seq<nat>, name: string, newId: nat)
    requires FirstChild(a, s, name) == 0 && 0 !in s && newId in b && b[newId].name == name
    requires forall c :: c in s ==> c in a && c in b && b[c].name == a[c].name
    ensures FirstChild(b, s + [newId], name) == newId
    decreases |s|
  {
    if s != [] {
      assert s[0] in s && (s + [newId])[1..] == s[1..] + [newId];
      LastChild(a, b, s[1..], name, newId);
    }
  }

  /**
   An object created under an allocated directory is found at its path, exactly when no older child of
   that directory has the same name.
   */
  lemma CreatedIsFound(objs: Objects, root: nat, parentPath: string, name: string, kind: Kind, newId: nat)
    requires Sound(objs) && root in objs && newId !in objs && newId != 0 && PlainName(name)
    requires var p := Resolve(objs, root, Components(parentPath));
             p.Found? && p.id in objs && objs[p.id].kind == Directory && objs[p.id].data.Children?
    ensures var p := Resolve(objs, root, Components(parentPath)).id;
            var r := Create(objs, root, true, parentPath, name, kind, newId);
            && r.status == Success && r.objs[newId].refs == 2
            && (Resolve(r.objs, root, Components(parentPath + "/" + name)) == Found(newId)
                <==> forall c :: c in objs[p].data.children ==> objs[c].name != name)
  {
    hide *;
    var names := Components(parentPath);
    var p := Resolve(objs, root, names).id;
    var after := Create(objs, root, true, parentPath, name, kind, newId).objs;
    CreateKeepsPaths(objs, root, true, parentPath, name, kind, newId, parentPath);
    CreateGrows(objs, root, true, parentPath, name, kind, newId);
    CreatedUnder(objs, root, parentPath, name, kind, newId);
    AppendName(parentPath, name);
    ResolveInTwo(after, root, names, [name]);
    LastStep(after, p, name);
    FoundLast(objs, after, objs[p].data.children, name, newId);
  }

  /** A creation under an allocated directory. */
  lemma CreatedUnder(objs: Objects, root: nat, parentPath: string, name: string, kind: Kind, newId: nat)
    requires Sound(objs) && newId !in objs && newId != 0 && PlainName(name)
    requires var p := Resolve(objs, root, Components(parentPath));
             p.Found? && p.id in objs && objs[p.id].kind == Directory && objs[p.id].data.Children?
    ensures name != "" && '/' !in name
    ensures var p := Resolve(objs, root, Components(parentPath)).id;
            var r := Create(objs, root, true, parentPath, name, kind, newId);
            && |name| < NT_OBNAME_LEN - 1 && r.status == Success && newId in r.objs && r.objs[newId].refs == 2 && r.objs[newId].name == name
            && p in r.objs && r.objs[p].kind == Directory && r.objs[p].data == Children(objs[p].data.children + [newId])
            && 0 !in objs && newId != 0 && forall c :: c in objs[p].data.children ==> c in objs
  {
    hide Resolve;
    hide Components;
  }

  lemma LastStep(objs: Objects, p: nat, name: string)
    requires p in objs && objs[p].kind == Directory && objs[p].data.Children? && |name| < NT_OBNAME_LEN - 1
    ensures Resolve(objs, p, [name]) == Child(objs, p, name)
    ensures var c := FirstChild(objs, objs[p].data.children, name);
            Child(objs, p, name) == if c == 0 then Failed(ObjectNotFound) else Found(c)
  {
    hide FirstChild;
    assert [name][1..] == [];
  }

  /** A new last child is found under its name exactly when no older child has that name. */
  lemma FoundLast(objs: Objects, after: Objects, children: seq<nat>, name: string, newId: nat)
    requires Grows(objs, after) && 0 !in objs && newId !in objs && newId != 0 && newId in after && after[newId].name == name
    requires forall c :: c in children ==> c in objs
    ensures FirstChild(after, children + [newId], name) == newId <==> forall c :: c in children ==> objs[c].name != name
  {
    hide FirstChild;
    FirstChildLaw(objs, children, name);
    assert forall c :: c in children ==> (IsCalled(objs, c, name) <==> objs[c].name == name);
    if FirstChild(objs, children, name) == 0 {
      LastChild(objs, after, children, name, newId);
    } else {
      FirstChildIn(objs, children, name);
      FirstChildStays(objs, after, children, children + [newId], name);
    }
  }
}
