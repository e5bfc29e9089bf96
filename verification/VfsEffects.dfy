/** extmod/vfs.c: what mount, umount and the lookup do to a table, said without their searches. */
module VfsEffects {
  import opened VfsTable
  import opened Wrappers

  // ---------- umount ----------

  /** Entry k is the first one that is mounted at `str`. */
  ghost predicate FirstAt(table: seq<Mount>, str: string, k: nat) {
    k < |table| && table[k].str == str && forall j | 0 <= j < k :: table[j].str != str
  }

  /** Entry k is the first one with the file system object `obj`. */
  ghost predicate FirstOf(table: seq<Mount>, obj: nat, k: nat) {
    k < |table| && table[k].obj == obj && forall j | 0 <= j < k :: table[j].obj != obj
  }

  /** With a string, umount removes the first entry whose mount point is this string, and fails if there is none. */
  lemma UmountByName(table: seq<Mount>, str: string)
    ensures Umount(table, Name(str)).Ok? <==> exists i :: 0 <= i < |table| && table[i].str == str
    ensures Umount(table, Name(str)).Err? ==> Umount(table, Name(str)) == Err(EINVAL)
    ensures forall k: nat | FirstAt(table, str, k) :: Umount(table, Name(str)) == Ok(table[..k] + table[k + 1..])
  {
  }

  /** And with an object the first entry that has it. */
  lemma UmountByObject(table: seq<Mount>, obj: nat)
    ensures Umount(table, Object(obj)).Ok? <==> exists i :: 0 <= i < |table| && table[i].obj == obj
    ensures Umount(table, Object(obj)).Err? ==> Umount(table, Object(obj)) == Err(EINVAL)
    ensures forall k: nat | FirstOf(table, obj, k) :: Umount(table, Object(obj)) == Ok(table[..k] + table[k + 1..])
  {
  }

  // ---------- mount ----------

  /** Entry m is put in front of the root mounts and behind all others. */
  ghost predicate PutAt(table: seq<Mount>, m: Mount, t: seq<Mount>, k: nat) {
    && k <= |table| && t == table[..k] + [m] + table[k..]
    && (forall i | 0 <= i < k :: |table[i].str| != 1)
    && (forall i | k <= i < |table| :: |table[i].str| == 1)
  }

  lemma MountPutsIn(table: seq<Mount>, cur: Current, m: Mount)
    requires InOrder(table)
    ensures match MountAt(table, cur, m)
            case Ok(t) => exists k: nat :: PutAt(table, m, t, k)
            case Err(e) => e == EPERM
  {
    var k := InsertPos(table, 0);
    forall i | k <= i < |table| ensures |table[i].str| == 1 {
      RootsBehind(table, i);
    }
    assert PutAt(table, m, Inserted(table, m), k);
  }

  lemma PutThenRemoved(table: seq<Mount>, m: Mount, t: seq<Mount>, k: nat)
    requires k <= |table| && t == table[..k] + [m] + table[k..]
    ensures t[k] == m && t[..k] == table[..k] && t[k + 1..] == table[k..] && t[..k] + t[k + 1..] == table
  {
  }

  /** An accepted mount point is new among the entries that are not for the root. */
  lemma NameIsNew(table: seq<Mount>, cur: Current, m: Mount, j: nat)
    requires Ordered(table) && IsAbsolute(m.str) && MountAt(table, cur, m).Ok?
    requires j < |table| && |table[j].str| != 1
    ensures table[j].str != m.str
  {
    MountAcceptedIff(table, cur, m);
    BelowIsTaken(table[j], "");
  }

  /** Mounting is undone by unmounting at the same place: the table is as before. */
  lemma UmountUndoesMount(table: seq<Mount>, cur: Current, m: Mount)
    requires Ordered(table) && IsAbsolute(m.str) && MountAt(table, cur, m).Ok?
    ensures Umount(MountAt(table, cur, m).value, Name(m.str)) == Ok(table)
  {
    var k, t := InsertPos(table, 0), Inserted(table, m);
    PutThenRemoved(table, m, t, k);
    forall j | 0 <= j < k ensures t[j].str != m.str {
      NameIsNew(table, cur, m, j);
      assert t[j] == t[..k][j];
    }
    UmountByName(t, m.str);
    assert FirstAt(t, m.str, k);
  }

  // ---------- which paths an entry takes ----------

  /** A root mount takes every path; another entry the path of its mount point and those below it. */
  lemma TakesIff(m: Mount, p: string)
    requires m.str != ""
    ensures Takes(m, p) <==>
            |m.str| == 1 || p == m.str[1..] || exists rest :: p == m.str[1..] + "/" + rest
  {
    var len := |m.str| - 1;
    if len > 0 && Takes(m, p) && |p| > len {
      assert p == m.str[1..] + "/" + p[len + 1..];
    }
  }

  lemma BelowIsTaken(m: Mount, rest: string)
    requires m.str != ""
    ensures Takes(m, m.str[1..]) && Takes(m, m.str[1..] + "/" + rest)
  {
    TakesIff(m, m.str[1..]);
    TakesIff(m, m.str[1..] + "/" + rest);
  }

  lemma PathBelow(m: Mount, path: string, rest: string)
    requires |m.str| > 1
    ensures var p := m.str[1..] + "/" + rest; Takes(m, p) && PathOut(m, path, p) == "/" + rest
  {
    BelowIsTaken(m, rest);
    var p := m.str[1..] + "/" + rest;
    assert p[|m.str| - 1..] == "/" + rest;
  }

  /** In an ordered table, a file below a mount point is found there, unless there is a longer mount point above it. */
  lemma FileIsFound(table: seq<Mount>, curIsRoot: bool, i: nat, rest: string)
    requires Ordered(table) && i < |table| && |table[i].str| > 1
    requires forall j | 0 <= j < |table| && |table[j].str| > |table[i].str| :: !Takes(table[j], table[i].str[1..] + "/" + rest)
    ensures LookupPath(table, curIsRoot, table[i].str + "/" + rest) == Found(i, "/" + rest)
  {
    var path, p := table[i].str + "/" + rest, table[i].str[1..] + "/" + rest;
    assert path[1..] == p;
    BelowIsTaken(table[i], rest);
    PathBelow(table[i], path, rest);
    LookupIsLongestMatch(table, curIsRoot, path);
  }

  /** The mount point itself is the root of what is mounted there. */
  lemma MountPointIsFound(table: seq<Mount>, curIsRoot: bool, i: nat)
    requires Ordered(table) && i < |table| && |table[i].str| > 1
    ensures LookupPath(table, curIsRoot, table[i].str) == Found(i, "/")
  {
    var path := table[i].str;
    BelowIsTaken(table[i], "");
    LookupIsLongestMatch(table, curIsRoot, path);
  }

  // ---------- relative paths ----------

  /** Outside the root, a relative path goes unchanged to the current file system. In the root it leads where the same
      path with a slash leads, and to the current directory, which is the root, where this is not found. */
  lemma RelativeLookup(table: seq<Mount>, path: string)
    requires NoEmpty(table) && !IsAbsolute(path)
    ensures LookupPath(table, false, path) == UseCurrent(path)
    ensures path == "" ==> LookupPath(table, true, path) == IsRoot
    ensures path != "" ==>
              match LookupPath(table, true, "/" + path)
              case Found(i, out) => LookupPath(table, true, path) == Found(i, if |table[i].str| == 1 then path else out)
              case NotFound => LookupPath(table, true, path) == UseCurrent(path)
              case _ => false
  {
    assert ("/" + path)[1..] == path;
  }

  /** The root itself, wherever the current directory is. */
  lemma RootLookup(table: seq<Mount>, curIsRoot: bool)
    requires NoEmpty(table)
    ensures LookupPath(table, curIsRoot, "/") == IsRoot
  {
  }
}
