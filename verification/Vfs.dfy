/** extmod/vfs.c: the mount table as the linked list that it is, edited through pointers to links. */
module Vfs {
  import opened Wrappers
  import T = VfsTable

  /** mp_vfs_mount_t */
  class MountNode {
    const m: T.Mount
    var next: MountNode?

    constructor (m: T.Mount)
      ensures this.m == m && next == null
    {
      this.m := m;
      next := null;
    }
  }

  /** A mp_vfs_mount_t pointer with its two special values. */
  datatype Ptr = MP_VFS_ROOT | MP_VFS_NONE | At(node: MountNode)

  /** The node at position k of a list, and the null pointer at its end. */
  ghost function NodeAt(nodes: seq<MountNode>, k: nat): MountNode? {
    if k < |nodes| then nodes[k] else null
  }

  ghost predicate Linked(nodes: seq<MountNode>)
    reads nodes
  {
    forall i {:trigger nodes[i]} | 0 <= i < |nodes| :: nodes[i].next == NodeAt(nodes, i + 1)
  }

  ghost predicate Distinct(nodes: seq<MountNode>) {
    forall i, j | 0 <= i < j < |nodes| :: nodes[i] != nodes[j]
  }

  ghost function Mounts(nodes: seq<MountNode>): (t: seq<T.Mount>)
    ensures |t| == |nodes| && forall i | 0 <= i < |t| :: t[i] == nodes[i].m
  {
    seq(|nodes|, i requires 0 <= i < |nodes| => nodes[i].m)
  }

  ghost function With(nodes: seq<MountNode>, k: nat, vfs: MountNode): (r: seq<MountNode>)
    requires k <= |nodes|
    ensures |r| == |nodes| + 1
    ensures forall i {:trigger r[i]} | 0 <= i < |r| :: r[i] == if i < k then nodes[i] else if i == k then vfs else nodes[i - 1]
  {
    seq(|nodes| + 1, i requires 0 <= i <= |nodes| => if i < k then nodes[i] else if i == k then vfs else nodes[i - 1])
  }

  ghost function Without(nodes: seq<MountNode>, k: nat): (r: seq<MountNode>)
    requires k < |nodes|
    ensures |r| == |nodes| - 1
    ensures forall i {:trigger r[i]} | 0 <= i < |r| :: r[i] == if i < k then nodes[i] else nodes[i + 1]
  {
    seq(|nodes| - 1, i requires 0 <= i < |nodes| - 1 => if i < k then nodes[i] else nodes[i + 1])
  }

  /** A list in which the link before position k leads to the new node, and that to the rest. */
  lemma LinkedWith(nodes: seq<MountNode>, k: nat, vfs: MountNode)
    requires k <= |nodes| && Distinct(nodes) && vfs !in nodes
    requires forall i {:trigger nodes[i]} | 0 <= i < |nodes| && i != k - 1 :: nodes[i].next == NodeAt(nodes, i + 1)
    requires (k > 0 ==> nodes[k - 1].next == vfs) && vfs.next == NodeAt(nodes, k)
    ensures Linked(With(nodes, k, vfs)) && Distinct(With(nodes, k, vfs))
  {
  }

  /** A list in which the link to the node at k leads past it. */
  lemma LinkedWithout(nodes: seq<MountNode>, k: nat)
    requires k < |nodes| && Distinct(nodes)
    requires forall i {:trigger nodes[i]} | 0 <= i < |nodes| && i != k - 1 :: nodes[i].next == NodeAt(nodes, i + 1)
    requires k > 0 ==> nodes[k - 1].next == NodeAt(nodes, k + 1)
    ensures Linked(Without(nodes, k)) && Distinct(Without(nodes, k))
  {
  }

  lemma MountsWith(nodes: seq<MountNode>, k: nat, vfs: MountNode)
    requires vfs.m.str != "" && T.NoEmpty(Mounts(nodes)) && k == T.InsertPos(Mounts(nodes), 0)
    ensures Mounts(With(nodes, k, vfs)) == T.Inserted(Mounts(nodes), vfs.m)
    ensures T.NoEmpty(Mounts(With(nodes, k, vfs)))
  {
  }

  lemma MountsWithout(nodes: seq<MountNode>, k: nat)
    requires k < |nodes| && T.NoEmpty(Mounts(nodes))
    ensures Mounts(Without(nodes, k)) == T.Removed(Mounts(nodes), k)
    ensures T.NoEmpty(Mounts(Without(nodes, k)))
  {
  }

  lemma KeptWith(nodes: seq<MountNode>, k: nat, vfs: MountNode, x: MountNode)
    requires k <= |nodes| && x in nodes
    ensures x in With(nodes, k, vfs)
  {
    var i :| 0 <= i < |nodes| && nodes[i] == x;
    assert With(nodes, k, vfs)[if i < k then i else i + 1] == x;
  }

  lemma KeptWithout(nodes: seq<MountNode>, k: nat, x: MountNode)
    requires k < |nodes| && x in nodes && x != nodes[k]
    ensures x in Without(nodes, k)
  {
    var i :| 0 <= i < |nodes| && nodes[i] == x;
    assert Without(nodes, k)[if i < k then i else i - 1] == x;
  }

  class MountTable {
    var mountTable: MountNode?
    var cur: Ptr
    /** The nodes of the list, in order. */
    ghost var nodes: seq<MountNode>

    /** The list holds each node once. */
    ghost predicate IsList()
      reads this`mountTable, this`nodes, nodes
    {
      mountTable == NodeAt(nodes, 0) && Linked(nodes) && Distinct(nodes)
    }

    /** A current file system is one that is mounted. */
    ghost predicate Valid()
      reads this, nodes
    {
      && IsList()
      && T.NoEmpty(Mounts(nodes))
      && (cur.At? ==> cur.node in nodes)
    }

    ghost function Current(): T.Current
      reads this`cur
    {
      match cur
      case MP_VFS_ROOT => T.AtRoot
      case MP_VFS_NONE => T.AtNone
      case At(node) => T.AtMount(node.m)
    }

    constructor ()
      ensures Valid() && nodes == [] && cur == MP_VFS_ROOT
    {
      mountTable := null;
      cur := MP_VFS_ROOT;
      nodes := [];
    }

    /** mp_vfs_lookup_path */
    method LookupPath(path: string) returns (vfs: Ptr, pathOut: string)
      requires Valid()
      ensures match T.LookupPath(Mounts(nodes), cur == MP_VFS_ROOT, path)
              case IsRoot => vfs == MP_VFS_ROOT
              case NotFound => vfs == MP_VFS_NONE
              case Found(i, out) => vfs == At(nodes[i]) && pathOut == out
              case UseCurrent(out) => vfs == cur && pathOut == out
    {
      pathOut := "";
      if T.IsAbsolute(path) || cur == MP_VFS_ROOT {
        var p, isAbs := path, false;
        if T.IsAbsolute(path) {
          p, isAbs := path[1..], true;
        }
        if p == "" {
          return MP_VFS_ROOT, pathOut;
        }
        var node, out := SearchPath(path, p);
        if node != null {
          return At(node), out;
        }
        if isAbs {
          return MP_VFS_NONE, pathOut;
        }
      }
      return cur, path;
    }

    /** Lines 58-73: the loop over the list. */
    method SearchPath(path: string, p: string) returns (node: MountNode?, pathOut: string)
      requires Valid()
      ensures match T.FirstTaking(Mounts(nodes), p, 0)
              case Some(i) => node == nodes[i] && pathOut == T.PathOut(nodes[i].m, path, p)
              case None => node == null
    {
      node, pathOut := mountTable, "";
      ghost var i := 0;
      while node != null
        invariant 0 <= i <= |nodes| && node == NodeAt(nodes, i)
        invariant T.FirstTaking(Mounts(nodes), p, 0) == T.FirstTaking(Mounts(nodes), p, i)
        decreases |nodes| - i
      {
        var len := |node.m.str| - 1;
        if len == 0 {
          return node, path;
        }
        if node.m.str[1..] <= p {
          if |p| > len && p[len] == '/' {
            return node, p[len..];
          } else if |p| == len {
            return node, "/";
          }
        }
        node, i := node.next, i + 1;
      }
    }

    /** mp_vfs_chdir, up to the call of the file system: which one is called, and with what path. What the lookup
        finds is current from then on, even if it is nothing. */
    method Chdir(path: string) returns (r: Result<(MountNode?, string), T.Error>)
      requires Valid()
      modifies this`cur
      ensures Valid()
      ensures Current() == T.Reached(Mounts(nodes), old(Current()), path)
      ensures cur == MP_VFS_NONE <==> r == Err(T.ENODEV)
      ensures cur.At? ==> r.Ok? && r.value.0 == cur.node
      ensures cur.At? ==>
                match T.LookupPath(Mounts(nodes), old(cur) == MP_VFS_ROOT, path)
                case Found(i, out) => r == Ok((nodes[i], out))
                case UseCurrent(out) => old(cur).At? && r == Ok((old(cur).node, path))
                case _ => false
      ensures cur == MP_VFS_ROOT ==> r == Ok((NodeAt(nodes, T.InsertPos(Mounts(nodes), 0)), "/"))
    {
      var vfs, pathOut := LookupPath(path);
      cur := vfs;
      match vfs {
        case MP_VFS_NONE => return Err(T.ENODEV);
        case At(node) => return Ok((node, pathOut));
        case MP_VFS_ROOT =>
          var _, link, _ := SearchRoot();
          return Ok((link, "/"));
      }
    }

    /** Assignment through a pointer to a link: the head of the list, or the next field of a node. */
    method SetLink(prev: MountNode?, node: MountNode?)
      modifies this`mountTable
      modifies if prev == null then {} else {prev}
      ensures if prev == null then mountTable == node else prev.next == node && mountTable == old(mountTable)
    {
      if prev == null {
        mountTable := node;
      } else {
        prev.next := node;
      }
    }

    /** Lines 173-181. */
    method InUse(m: T.Mount) returns (inUse: bool)
      requires Valid()
      ensures inUse == T.InUse(Mounts(nodes), Current(), m)
    {
      var existing, _ := LookupPath(m.str);
      inUse := existing.At? && !(|m.str| != 1 && |existing.node.m.str| == 1);
    }

    /** mp_vfs_mount */
    method Mount(m: T.Mount) returns (r: Result<(), T.Error>)
      requires Valid() && m.str != ""
      modifies this`mountTable, this`nodes, nodes
      ensures Valid()
      ensures match T.MountAt(old(Mounts(nodes)), Current(), m)
              case Ok(t) => r == Ok(()) && Mounts(nodes) == t
              case Err(e) => r == Err(e) && nodes == old(nodes)
      ensures r.Ok? ==> var k := T.InsertPos(old(Mounts(nodes)), 0);
                        k < |nodes| && fresh(nodes[k]) && nodes == With(old(nodes), k, nodes[k])
    {
      var inUse := InUse(m);
      if inUse {
        return Err(T.EPERM);
      }
      Add(m);
      return Ok(());
    }

    /** Lines 184-193: the new entry goes behind all but the root mounts. */
    method Add(m: T.Mount)
      requires Valid() && m.str != ""
      modifies this`mountTable, this`nodes, nodes
      ensures Valid() && Mounts(nodes) == T.Inserted(old(Mounts(nodes)), m)
      ensures var k := T.InsertPos(old(Mounts(nodes)), 0);
              k < |nodes| && fresh(nodes[k]) && nodes == With(old(nodes), k, nodes[k])
    {
      var vfs := new MountNode(m);
      var prev, link, k := SearchRoot();
      InsertAt(prev, link, vfs, k);
    }

    method InsertAt(prev: MountNode?, link: MountNode?, vfs: MountNode, ghost k: nat)
      requires Valid() && vfs !in nodes && vfs.next == null && vfs.m.str != ""
      requires k == T.InsertPos(Mounts(nodes), 0) && link == NodeAt(nodes, k) && prev == if k == 0 then null else nodes[k - 1]
      modifies this`mountTable, this`nodes, nodes, vfs
      ensures Valid() && nodes == With(old(nodes), k, vfs) && Mounts(nodes) == T.Inserted(old(Mounts(nodes)), vfs.m)
    {
      if cur.At? {
        KeptWith(nodes, k, vfs, cur.node);
      }
      MountsWith(nodes, k, vfs);
      LinkIn(prev, link, vfs, k);
    }

    /** Lines 188 and 193, with the link found: it leads to the new node, and that to where it led. */
    method LinkIn(prev: MountNode?, link: MountNode?, vfs: MountNode, ghost k: nat)
      requires IsList() && vfs !in nodes && vfs.next == null
      requires k <= |nodes| && link == NodeAt(nodes, k) && prev == if k == 0 then null else nodes[k - 1]
      modifies this`mountTable, this`nodes, nodes, vfs
      ensures IsList() && nodes == With(old(nodes), k, vfs)
    {
      vfs.next := link;
      SetLink(prev, vfs);
      LinkedWith(nodes, k, vfs);
      nodes := With(nodes, k, vfs);
    }

    /** Lines 184-192: the link before the first root mount, or the last one. */
    method SearchRoot() returns (prev: MountNode?, link: MountNode?, ghost k: nat)
      requires Valid()
      ensures k == T.InsertPos(Mounts(nodes), 0) && link == NodeAt(nodes, k)
      ensures prev == if k == 0 then null else nodes[k - 1]
    {
      prev, link, k := null, mountTable, 0;
      while link != null
        invariant 0 <= k <= |nodes| && link == NodeAt(nodes, k)
        invariant prev == if k == 0 then null else nodes[k - 1]
        invariant T.InsertPos(Mounts(nodes), 0) == T.InsertPos(Mounts(nodes), k)
        decreases |nodes| - k
      {
        if |link.m.str| == 1 {
          break;
        }
        prev, link, k := link, link.next, k + 1;
      }
    }

    /** mp_vfs_umount */
    method Umount(target: T.Target) returns (r: Result<(), T.Error>)
      requires Valid()
      modifies this, nodes
      ensures Valid()
      ensures match T.Umount(old(Mounts(nodes)), target)
              case Ok(t) =>
                var k := T.TargetPos(old(Mounts(nodes)), target, 0);
                && r == Ok(()) && Mounts(nodes) == t && nodes == Without(old(nodes), k)
                && cur == if old(cur) == At(old(nodes)[k]) then MP_VFS_ROOT else old(cur)
              case Err(e) => r == Err(e) && nodes == old(nodes) && cur == old(cur)
    {
      var prev, link, k := SearchTarget(target);
      if link == null {
        return Err(T.EINVAL);
      }
      Remove(prev, link, k);
      return Ok(());
    }

    /** Lines 210 and 220-222: nothing that is not mounted stays current. */
    method Remove(prev: MountNode?, link: MountNode, ghost k: nat)
      requires Valid()
      requires k < |nodes| && link == nodes[k] && prev == if k == 0 then null else nodes[k - 1]
      modifies this, nodes
      ensures Valid() && nodes == Without(old(nodes), k) && Mounts(nodes) == T.Removed(old(Mounts(nodes)), k)
      ensures cur == if old(cur) == At(link) then MP_VFS_ROOT else old(cur)
    {
      if cur.At? && cur.node != link {
        KeptWithout(nodes, k, cur.node);
      }
      MountsWithout(nodes, k);
      Unlink(prev, link, k);
      if cur == At(link) {
        cur := MP_VFS_ROOT;
      }
    }

    /** Line 210: the link to the node leads past it. */
    method Unlink(prev: MountNode?, link: MountNode, ghost k: nat)
      requires IsList() && k < |nodes| && link == nodes[k] && prev == if k == 0 then null else nodes[k - 1]
      modifies this`mountTable, this`nodes, nodes
      ensures IsList() && nodes == Without(old(nodes), k)
    {
      SetLink(prev, link.next);
      LinkedWithout(nodes, k);
      nodes := Without(nodes, k);
    }

    /** Lines 207-213: the link to the first node that is meant. */
    method SearchTarget(target: T.Target) returns (prev: MountNode?, link: MountNode?, ghost k: nat)
      requires Valid()
      ensures k == T.TargetPos(Mounts(nodes), target, 0) && link == NodeAt(nodes, k)
      ensures prev == if k == 0 then null else nodes[k - 1]
    {
      prev, link, k := null, mountTable, 0;
      while link != null && !T.IsTarget(link.m, target)
        invariant 0 <= k <= |nodes| && link == NodeAt(nodes, k)
        invariant prev == if k == 0 then null else nodes[k - 1]
        invariant T.TargetPos(Mounts(nodes), target, 0) == T.TargetPos(Mounts(nodes), target, k)
        decreases |nodes| - k
      {
        prev, link, k := link, link.next, k + 1;
      }
    }
  }
}
