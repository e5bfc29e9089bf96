/** extmod/vfs.c: the mount table on values. A table is the list of its mount points in order; strings are C
    strings without a NUL inside. */
module VfsTable {
  import opened Wrappers

  /** A mounted file system: where it is mounted and the file system object. */
  datatype Mount = Mount(str: string, obj: nat)

  datatype Error = EPERM | EINVAL | ENODEV

  /** The result of mp_vfs_lookup_path: the virtual root, nothing, an entry of the table with the path inside
      it, or the current directory with the path unchanged. */
  datatype Lookup = IsRoot | NotFound | Found(index: nat, pathOut: string) | UseCurrent(pathOut: string)

  // ---------- mp_vfs_lookup_path ----------

  predicate IsAbsolute(path: string) {
    path != "" && path[0] == '/'
  }

  /** Lines 59-72: the entry takes the path `p`, which is given without its leading slash. */
  predicate Takes(m: Mount, p: string)
    requires m.str != ""
  {
    var len := |m.str| - 1;
    len == 0 || (m.str[1..] <= p && (|p| == len || p[len] == '/'))
  }

  predicate NoEmpty(table: seq<Mount>) {
    forall i | 0 <= i < |table| :: table[i].str != ""
  }

  /** The first entry from i on that takes p. */
  function FirstTaking(table: seq<Mount>, p: string, i: nat): (r: Option<nat>)
    requires NoEmpty(table) && i <= |table|
    ensures r.Some? ==> i <= r.value < |table| && Takes(table[r.value], p)
    ensures r.Some? ==> forall j | i <= j < r.value :: !Takes(table[j], p)
    ensures r.None? ==> forall j | i <= j < |table| :: !Takes(table[j], p)
    decreases |table| - i
  {
    if i == |table| then None
    else if Takes(table[i], p) then Some(i)
    else FirstTaking(table, p, i + 1)
  }

  function PathOut(m: Mount, path: string, p: string): string
    requires m.str != "" && Takes(m, p)
  {
    var len := |m.str| - 1;
    if len == 0 then path else if |p| == len then "/" else p[len..]
  }

  function Stripped(path: string): string {
    if IsAbsolute(path) then path[1..] else path
  }

  function LookupPath(table: seq<Mount>, curIsRoot: bool, path: string): (r: Lookup)
    requires NoEmpty(table)
    ensures r.Found? ==> r.index < |table|
  {
    if !IsAbsolute(path) && !curIsRoot then UseCurrent(path)
    else
      var p := Stripped(path);
      if p == "" then IsRoot
      else
        match FirstTaking(table, p, 0)
        case Some(i) => Found(i, PathOut(table[i], path, p))
        case None => if IsAbsolute(path) then NotFound else UseCurrent(path)
  }

  // ---------- mount and umount ----------

  /** The current directory: the virtual root, nothing, or a mounted file system. */
  datatype Current = AtRoot | AtNone | AtMount(m: Mount)

  /** What a lookup leads to: line 253 makes it current. */
  function Reached(table: seq<Mount>, cur: Current, path: string): Current
    requires NoEmpty(table)
  {
    match LookupPath(table, cur == AtRoot, path)
    case IsRoot => AtRoot
    case NotFound => AtNone
    case Found(i, _) => AtMount(table[i])
    case UseCurrent(_) => cur
  }

  /** A change to an absolute path that is not found fails, but it changes the current directory all the same: from
      then on no relative path leads anywhere, until an absolute one is found. */
  lemma FailedChdirLosesCurrent(table: seq<Mount>, cur: Current, path: string, later: string)
    requires NoEmpty(table) && IsAbsolute(path) && LookupPath(table, cur == AtRoot, path) == NotFound
    ensures Reached(table, cur, path) == AtNone
    ensures !IsAbsolute(later) ==> Reached(table, Reached(table, cur, path), later) == AtNone
  {
  }

  /** The mount that a lookup of the new mount point finds, if any. */
  function Existing(table: seq<Mount>, cur: Current, str: string): Option<Mount>
    requires NoEmpty(table)
  {
    match Reached(table, cur, str)
    case AtMount(m) => Some(m)
    case _ => None
  }

  /** Lines 184-192: behind all entries but those for the root. */
  function InsertPos(table: seq<Mount>, i: nat): (k: nat)
    requires i <= |table|
    ensures i <= k <= |table| && (k < |table| ==> |table[k].str| == 1)
    ensures forall j | i <= j < k :: |table[j].str| != 1
    decreases |table| - i
  {
    if i == |table| || |table[i].str| == 1 then i else InsertPos(table, i + 1)
  }

  function Inserted(table: seq<Mount>, m: Mount): seq<Mount> {
    var k := InsertPos(table, 0);
    table[..k] + [m] + table[k..]
  }

  /** Lines 173-181: the mount point is in use unless only a root mount covers it. */
  predicate InUse(table: seq<Mount>, cur: Current, m: Mount)
    requires NoEmpty(table)
  {
    var existing := Existing(table, cur, m.str);
    existing.Some? && !(|m.str| != 1 && |existing.value.str| == 1)
  }

  function MountAt(table: seq<Mount>, cur: Current, m: Mount): Result<seq<Mount>, Error>
    requires NoEmpty(table)
  {
    if InUse(table, cur, m) then Err(EPERM) else Ok(Inserted(table, m))
  }

  /** What umount is called with: a mount point, or a file system object. */
  datatype Target = Name(str: string) | Object(obj: nat)

  predicate IsTarget(m: Mount, target: Target) {
    match target
    case Name(str) => m.str == str
    case Object(obj) => m.obj == obj
  }

  function TargetPos(table: seq<Mount>, target: Target, i: nat): (k: nat)
    requires i <= |table|
    ensures i <= k <= |table| && (k < |table| ==> IsTarget(table[k], target))
    ensures forall j | i <= j < k :: !IsTarget(table[j], target)
    decreases |table| - i
  {
    if i == |table| || IsTarget(table[i], target) then i else TargetPos(table, target, i + 1)
  }

  function Removed(table: seq<Mount>, k: nat): seq<Mount>
    requires k < |table|
  {
    table[..k] + table[k + 1..]
  }

  function Umount(table: seq<Mount>, target: Target): Result<seq<Mount>, Error> {
    var k := TargetPos(table, target, 0);
    if k == |table| then Err(EINVAL) else Ok(Removed(table, k))
  }

  // ---------- the order that mount and umount maintain ----------

  /** Root mounts form a suffix. */
  ghost predicate RootsLast(table: seq<Mount>) {
    forall i, j | 0 <= i < j < |table| :: |table[i].str| == 1 ==> |table[j].str| == 1
  }

  /** No entry but a root mount takes the mount point of a later entry. */
  ghost predicate NoShadow(table: seq<Mount>)
    requires NoEmpty(table)
  {
    forall i, j | 0 <= i < j < |table| :: |table[i].str| > 1 ==> !Takes(table[i], table[j].str[1..])
  }

  ghost predicate AllAbsolute(table: seq<Mount>) {
    forall i | 0 <= i < |table| :: IsAbsolute(table[i].str)
  }

  ghost predicate InOrder(table: seq<Mount>) {
    NoEmpty(table) && RootsLast(table) && NoShadow(table)
  }

  ghost predicate Ordered(table: seq<Mount>) {
    AllAbsolute(table) && InOrder(table)
  }

  /** No entry but a root mount takes the path. */
  ghost predicate OnlyRootsTake(table: seq<Mount>, p: string)
    requires NoEmpty(table)
  {
    forall i | 0 <= i < |table| && Takes(table[i], p) :: |table[i].str| == 1
  }

  /** A mount is accepted exactly if no entry but a root mount takes the path that is looked up for it: the mount
      point without its slash or, for a relative one in the root, the mount point itself. Elsewhere a relative one
      is accepted if the current file system is a root mount or does not exist. */
  lemma MountAcceptedIff(table: seq<Mount>, cur: Current, m: Mount)
    requires InOrder(table) && m.str != ""
    ensures MountAt(table, cur, m).Ok? <==>
            if IsAbsolute(m.str) then |m.str| == 1 || OnlyRootsTake(table, m.str[1..])
            else if cur == AtRoot then OnlyRootsTake(table, m.str) && (|m.str| == 1 ==> NobodyTakes(table, m.str))
            else cur.AtNone? || (|m.str| != 1 && |cur.m.str| == 1)
  {
    FirstTakingTells(table, Stripped(m.str));
    ExistingIs(table, cur, m.str);
  }

  lemma ExistingIs(table: seq<Mount>, cur: Current, str: string)
    requires NoEmpty(table)
    ensures Existing(table, cur, str) ==
            if !IsAbsolute(str) && cur != AtRoot then if cur.AtMount? then Some(cur.m) else None
            else if Stripped(str) == "" then None
            else match FirstTaking(table, Stripped(str), 0) case Some(i) => Some(table[i]) case None => None
  {
  }

  lemma FirstTakingTells(table: seq<Mount>, p: string)
    requires InOrder(table)
    ensures var first := FirstTaking(table, p, 0);
            && (first.None? <==> NobodyTakes(table, p))
            && (first.None? || |table[first.value].str| == 1 <==> OnlyRootsTake(table, p))
  {
    var first := FirstTaking(table, p, 0);
    if first.Some? && |table[first.value].str| == 1 {
      forall i | 0 <= i < |table| && Takes(table[i], p) ensures |table[i].str| == 1 {
        assert first.value <= i;
      }
    }
  }

  ghost predicate NobodyTakes(table: seq<Mount>, p: string)
    requires NoEmpty(table)
  {
    forall i | 0 <= i < |table| :: !Takes(table[i], p)
  }

  /** Mounting at an absolute path keeps the order. */
  lemma MountKeepsOrder(table: seq<Mount>, cur: Current, m: Mount)
    requires Ordered(table) && IsAbsolute(m.str)
    ensures MountAt(table, cur, m).Ok? ==> Ordered(MountAt(table, cur, m).value)
  {
    if MountAt(table, cur, m).Ok? {
      MountAcceptedIff(table, cur, m);
      InsertedInOrderIff(table, m);
      InsertedAt(table, m);
    }
  }

  /** An accepted mount, absolute or not, leaves the table in order exactly if it is a root mount or no entry but a
      root mount takes its mount point without the first character, be that a slash or not. */
  lemma MountInOrderIff(table: seq<Mount>, cur: Current, m: Mount)
    requires InOrder(table) && m.str != "" && MountAt(table, cur, m).Ok?
    ensures InOrder(MountAt(table, cur, m).value) <==> |m.str| == 1 || OnlyRootsTake(table, m.str[1..])
  {
    InsertedInOrderIff(table, m);
  }

  lemma InsertedAt(table: seq<Mount>, m: Mount)
    ensures var t, k := Inserted(table, m), InsertPos(table, 0);
            |t| == |table| + 1 &&
            forall i {:trigger t[i]} | 0 <= i < |t| :: t[i] == if i < k then table[i] else if i == k then m else table[i - 1]
  {
  }

  lemma RootsBehind(table: seq<Mount>, j: nat)
    requires RootsLast(table) && InsertPos(table, 0) <= j < |table|
    ensures |table[j].str| == 1
  {
    var k := InsertPos(table, 0);
    assert k == j || (|table[k].str| == 1 ==> |table[j].str| == 1);
  }

  lemma InsertedInOrderIff(table: seq<Mount>, m: Mount)
    requires InOrder(table) && m.str != ""
    ensures InOrder(Inserted(table, m)) <==> |m.str| == 1 || OnlyRootsTake(table, m.str[1..])
  {
    var t, k := Inserted(table, m), InsertPos(table, 0);
    InsertedAt(table, m);
    if |m.str| == 1 || OnlyRootsTake(table, m.str[1..]) {
      InsertedNoShadow(table, m);
    } else {
      var i := TakerBefore(table, m.str[1..]);
      assert t[i] == table[i] && t[k] == m;
    }
  }

  lemma InsertedNoShadow(table: seq<Mount>, m: Mount)
    requires InOrder(table) && m.str != "" && (|m.str| == 1 || OnlyRootsTake(table, m.str[1..]))
    ensures InOrder(Inserted(table, m))
  {
    var t, k := Inserted(table, m), InsertPos(table, 0);
    InsertedAt(table, m);
    forall j | k < j < |t| ensures |t[j].str| == 1 {
      RootsBehind(table, j - 1);
    }
    forall i, j | 0 <= i < j < |t| && |t[i].str| > 1 ensures !Takes(t[i], t[j].str[1..]) {
      if j > k {
        assert t[j].str[1..] == "";
      }
    }
  }

  // ---------- which mounts are ever found ----------

  /** A path of n letters, with nothing for a mount point to end at. */
  function Letters(n: nat): (p: string)
    ensures |p| == n && forall i | 0 <= i < n :: p[i] == 'a'
  {
    seq(n, _ => 'a')
  }

  function Longest(table: seq<Mount>, k: nat): (n: nat)
    requires k <= |table|
    ensures forall i | 0 <= i < k :: |table[i].str| <= n
  {
    if k == 0 then 0
    else if |table[k - 1].str| > Longest(table, k - 1) then |table[k - 1].str|
    else Longest(table, k - 1)
  }

  /** Some absolute path leads to entry k. */
  ghost predicate CanBeFound(table: seq<Mount>, k: nat)
    requires NoEmpty(table)
  {
    exists path :: FindsIt(table, path, k)
  }

  ghost predicate FindsIt(table: seq<Mount>, path: string, k: nat)
    requires NoEmpty(table)
  {
    IsAbsolute(path) && LookupPath(table, false, path).Found? && LookupPath(table, false, path).index == k
  }

  /** An accepted mount, absolute or not, is hidden from every absolute path exactly if it is not for the root and an
      entry for another directory takes its mount point without the first character. */
  lemma MountIsHiddenIff(table: seq<Mount>, cur: Current, m: Mount)
    requires InOrder(table) && m.str != "" && MountAt(table, cur, m).Ok?
    ensures var t, k := MountAt(table, cur, m).value, InsertPos(table, 0);
            && k < |t| && t[k] == m && NoEmpty(t)
            && (CanBeFound(t, k) <==> |m.str| == 1 || OnlyRootsTake(table, m.str[1..]))
  {
    var t, k := MountAt(table, cur, m).value, InsertPos(table, 0);
    InsertedAt(table, m);
    if |m.str| == 1 {
      var path := "/" + Letters(Longest(table, |table|) + 1);
      FirstIs(t, k, path);
      assert FindsIt(t, path, k);
    } else if OnlyRootsTake(table, m.str[1..]) {
      var path := "/" + m.str[1..];
      FirstIs(t, k, path);
      assert FindsIt(t, path, k);
    } else {
      var i := TakerBefore(table, m.str[1..]);
      HiddenBehind(t, i, k);
    }
  }

  /** What is taken by an earlier entry is found for no path. */
  lemma HiddenBehind(t: seq<Mount>, i: nat, k: nat)
    requires NoEmpty(t) && i < k < |t| && |t[k].str| > 1 && Takes(t[i], t[k].str[1..])
    ensures !CanBeFound(t, k)
  {
    forall path ensures !FindsIt(t, path, k) {
      if FindsIt(t, path, k) {
        TakesTransitively(t[i], t[k], path[1..]);
      }
    }
  }

  lemma TakerBefore(table: seq<Mount>, p: string) returns (i: nat)
    requires InOrder(table) && !OnlyRootsTake(table, p)
    ensures i < InsertPos(table, 0) && Takes(table[i], p) && |table[i].str| != 1
  {
    i :| i < |table| && Takes(table[i], p) && |table[i].str| != 1;
    assert i < InsertPos(table, 0) by {
      if InsertPos(table, 0) <= i {
        RootsBehind(table, i);
      }
    }
  }

  lemma FirstIs(t: seq<Mount>, k: nat, path: string)
    requires NoEmpty(t) && k < |t| && IsAbsolute(path) && |path| > 1
    requires Takes(t[k], path[1..]) && forall i | 0 <= i < k :: !Takes(t[i], path[1..])
    ensures FindsIt(t, path, k)
  {
  }

  /** What takes a mount point takes the paths that this one takes. */
  lemma TakesTransitively(a: Mount, b: Mount, p: string)
    requires a.str != "" && b.str != "" && |b.str| > 1 && Takes(a, b.str[1..]) && Takes(b, p)
    ensures Takes(a, p)
  {
    var n, q := |a.str| - 1, b.str[1..];
    if n > 0 {
      assert a.str[1..] == q[..n] && q == p[..|q|];
      assert p[..n] == q[..n];
      if |p| > n {
        assert |q| == n || p[n] == q[n];
      }
    }
  }

  /** Unmounting keeps it. */
  lemma UmountKeepsOrder(table: seq<Mount>, target: Target)
    requires Ordered(table)
    ensures Umount(table, target).Ok? ==> Ordered(Umount(table, target).value)
  {
    var k := TargetPos(table, target, 0);
    if k < |table| {
      RemovedAbsolute(table, k);
      RemovedNoShadow(table, k);
    }
  }

  lemma RemovedAbsolute(table: seq<Mount>, k: nat)
    requires AllAbsolute(table) && RootsLast(table) && k < |table|
    ensures AllAbsolute(Removed(table, k)) && NoEmpty(Removed(table, k)) && RootsLast(Removed(table, k))
  {
    var t := Removed(table, k);
    assert forall i {:trigger t[i]} | 0 <= i < |t| :: t[i] == table[if i < k then i else i + 1];
  }

  lemma RemovedNoShadow(table: seq<Mount>, k: nat)
    requires NoEmpty(table) && NoShadow(table) && k < |table| && NoEmpty(Removed(table, k))
    ensures NoShadow(Removed(table, k))
  {
    var t := Removed(table, k);
    forall i, j | 0 <= i < j < |t| && |t[i].str| > 1 ensures !Takes(t[i], t[j].str[1..]) {
      var i', j' := if i < k then i else i + 1, if j < k then j else j + 1;
      assert t[i] == table[i'] && t[j] == table[j'];
    }
  }

  datatype Op = DoMount(m: Mount) | DoUmount(target: Target) | DoChdir(cur: Current)

  /** One call; a failing call changes nothing. The current directory changes by calls of its own, to anything:
      that umount of the current file system leads to the root is one of these changes. */
  function Step(table: seq<Mount>, cur: Current, op: Op): (seq<Mount>, Current)
    requires NoEmpty(table)
  {
    match op
    case DoMount(m) =>
      var r := MountAt(table, cur, m);
      (if r.Ok? then r.value else table, cur)
    case DoUmount(target) =>
      var r := Umount(table, target);
      (if r.Ok? then r.value else table, cur)
    case DoChdir(c) => (table, c)
  }

  ghost predicate AbsoluteOps(ops: seq<Op>) {
    forall i | 0 <= i < |ops| && ops[i].DoMount? :: IsAbsolute(ops[i].m.str)
  }

  /** The tables that calls of mount and umount can lead to from `table`. */
  ghost predicate LeadsTo(table: seq<Mount>, cur: Current, ops: seq<Op>, end: seq<Mount>)
    decreases |ops|
  {
    if ops == [] then end == table
    else NoEmpty(table) && var (t, c) := Step(table, cur, ops[0]); LeadsTo(t, c, ops[1..], end)
  }

  /** Every reachable table is ordered. */
  lemma {:induction false} ReachableIsOrdered(table: seq<Mount>, cur: Current, ops: seq<Op>, end: seq<Mount>)
    requires Ordered(table) && AbsoluteOps(ops) && LeadsTo(table, cur, ops, end)
    ensures Ordered(end)
    decreases |ops|
  {
    if ops == [] {
    } else {
      match ops[0] {
        case DoMount(m) => MountKeepsOrder(table, cur, m);
        case DoUmount(target) => UmountKeepsOrder(table, target);
        case DoChdir(_) =>
      }
      var (t, c) := Step(table, cur, ops[0]);
      ReachableIsOrdered(t, c, ops[1..], end);
    }
  }

  // ---------- what the order is for ----------

  /** Two mount points that take the same path: the longer one is taken by the shorter one. */
  lemma TakersAreNested(a: Mount, b: Mount, p: string)
    requires a.str != "" && b.str != "" && |a.str| > 1 && Takes(a, p) && Takes(b, p) && |a.str| <= |b.str|
    ensures Takes(a, b.str[1..])
  {
    var n, q := |a.str| - 1, b.str[1..];
    assert a.str[1..] == p[..n] && q == p[..|b.str| - 1];
    assert q[..n] == p[..n];
    if |q| > n {
      assert q[n] == p[n];
    }
  }

  /** In an ordered table, the first entry that takes an absolute path has the longest mount point of all that
      take it, strictly unless it is a root mount; and a path is not found only if no entry takes it. */
  lemma LookupIsLongestMatch(table: seq<Mount>, curIsRoot: bool, path: string)
    requires InOrder(table) && IsAbsolute(path) && |path| > 1
    ensures match LookupPath(table, curIsRoot, path)
            case Found(i, _) =>
              && Takes(table[i], path[1..])
              && (forall j | 0 <= j < |table| && j != i && Takes(table[j], path[1..]) ::
                    |table[j].str| < |table[i].str| || |table[i].str| == |table[j].str| == 1)
            case NotFound => forall j | 0 <= j < |table| :: !Takes(table[j], path[1..])
            case _ => false
  {
    var p := path[1..];
    var first := FirstTaking(table, p, 0);
    if first.Some? {
      var i := first.value;
      forall j | 0 <= j < |table| && j != i && Takes(table[j], p)
        ensures |table[j].str| < |table[i].str| || |table[i].str| == |table[j].str| == 1
      {
        assert i < j;
        if |table[i].str| == 1 {
          assert |table[j].str| == 1;
        } else if |table[i].str| <= |table[j].str| {
          TakersAreNested(table[i], table[j], p);
          assert false;
        }
      }
    }
  }

  /** The mount point and the path inside it make up the path again; an exact match gives "/", and a root
      mount the whole path. */
  lemma PathOutRebuilds(table: seq<Mount>, curIsRoot: bool, path: string)
    requires Ordered(table) && IsAbsolute(path) && LookupPath(table, curIsRoot, path).Found?
    ensures var Found(i, out) := LookupPath(table, curIsRoot, path);
            && IsAbsolute(out)
            && (|table[i].str| == 1 ==> out == path)
            && (|table[i].str| > 1 ==> table[i].str + out == path || (table[i].str == path && out == "/"))
  {
    var Found(i, out) := LookupPath(table, curIsRoot, path);
    if |table[i].str| > 1 {
      TakenPathSplits(table[i], path[1..]);
      assert path == "/" + path[1..] && table[i].str == "/" + table[i].str[1..];
    }
  }

  lemma TakenPathSplits(m: Mount, p: string)
    requires |m.str| > 1 && Takes(m, p)
    ensures p == m.str[1..] + p[|m.str| - 1..]
  {
  }

  /** Such a mount exists: one without its slash, behind an entry that hides it. */
  lemma RelativeMountIsHidden(obj: nat)
    ensures var table, m := [Mount("/a", 0), Mount("/", 1)], Mount("xa", obj);
            && Ordered(table) && MountAt(table, AtMount(table[1]), m).Ok?
            && !InOrder(MountAt(table, AtMount(table[1]), m).value)
  {
    var table, m := [Mount("/a", 0), Mount("/", 1)], Mount("xa", obj);
    assert Takes(table[0], m.str[1..]) && |table[0].str| != 1;
    MountInOrderIff(table, AtMount(table[1]), m);
  }
}
