/**
 * The client library's end of a registration: an engine keeps its connections by identifier and, once
 * more, by directory, and hands an arriving notification to those whose directory it names.
 */
module Connections {
  import opened Paths

  function Position(ids: seq<nat>, id: nat): (i: nat)
    ensures i <= |ids| && (i < |ids| ==> ids[i] == id) && forall j :: 0 <= j < i ==> ids[j] != id
  {
    if ids == [] || ids[0] == id then 0 else 1 + Position(ids[1..], id)
  }

  /** g_list_remove. */
  function Without(ids: seq<nat>, id: nat): seq<nat> {
    var i := Position(ids, id);
    if i < |ids| then ids[..i] + ids[i + 1..] else ids
  }

  ghost predicate Distinct(ids: seq<nat>) {
    forall i, j :: 0 <= i < j < |ids| ==> ids[i] != ids[j]
  }

  lemma WithoutMembers(ids: seq<nat>, id: nat)
    requires Distinct(ids)
    ensures Distinct(Without(ids, id)) && forall other :: other in Without(ids, id) <==> other in ids && other != id
  {
    var i := Position(ids, id);
    var rest := Without(ids, id);
    if i < |ids| {
      assert forall k :: 0 <= k < |rest| ==> rest[k] == ids[if k < i then k else k + 1];
      forall other | other in ids && other != id
        ensures other in rest
      {
        var k :| 0 <= k < |ids| && ids[k] == other;
        assert rest[if k < i then k else k - 1] == other;
      }
    }
  }

  /** The two tables name each other: every identifier is listed once, under its own directory. */
  ghost predicate TablesAgree(dirs: map<Path, seq<nat>>, ids: map<nat, Path>) {
    && (forall d :: d in dirs ==> dirs[d] != [] && Distinct(dirs[d]))
    && (forall d, id :: d in dirs && id in dirs[d] ==> id in ids && ids[id] == d)
    && (forall id :: id in ids ==> ids[id] in dirs && id in dirs[ids[id]])
  }

  function WithoutCnxn(dirs: map<Path, seq<nat>>, dir: Path, id: nat): map<Path, seq<nat>>
    requires dir in dirs
  {
    if Without(dirs[dir], id) == [] then dirs - {dir} else dirs[dir := Without(dirs[dir], id)]
  }

  lemma RemovedAgrees(dirs: map<Path, seq<nat>>, ids: map<nat, Path>, id: nat)
    requires TablesAgree(dirs, ids) && id in ids
    ensures ids[id] in dirs && TablesAgree(WithoutCnxn(dirs, ids[id], id), ids - {id})
  {
    var dir := ids[id];
    var dirs' := WithoutCnxn(dirs, dir, id);
    WithoutMembers(dirs[dir], id);
    forall d, other | d in dirs' && other in dirs'[d]
      ensures other in ids - {id} && ids[other] == d
    {
      assert other in dirs[d];
    }
    forall other | other in ids - {id}
      ensures ids[other] in dirs' && other in dirs'[ids[other]]
    {
      assert other in dirs[ids[other]];
      if ids[other] == dir {
        assert other in Without(dirs[dir], id);
      }
    }
  }

  class GConfEngine {
    var notifyDirs: map<Path, seq<nat>>
    var notifyIds: map<nat, Path>

    ghost predicate Valid()
      reads this
    {
      TablesAgree(notifyDirs, notifyIds)
    }

    constructor ()
      ensures Valid() && notifyIds == map[]
    {
      notifyDirs, notifyIds := map[], map[];
    }

    /** gconf_cnxn_insert. */
    method CnxnInsert(dir: Path, id: nat)
      requires Valid() && id !in notifyIds
      modifies this
      ensures Valid() && notifyIds == old(notifyIds)[id := dir]
    {
      var cnxns := [];
      if dir in notifyDirs {
        cnxns := notifyDirs[dir];
      }
      notifyDirs := notifyDirs[dir := [id] + cnxns];
      notifyIds := notifyIds[id := dir];
    }

    /** gconf_cnxn_remove: a directory's list goes with its last connection. */
    method CnxnRemove(id: nat)
      requires Valid() && id in notifyIds
      modifies this
      ensures Valid() && notifyIds == old(notifyIds) - {id}
    {
      var dir := notifyIds[id];
      RemovedAgrees(notifyDirs, notifyIds, id);
      notifyIds := notifyIds - {id};
      if dir in notifyDirs {
        var cnxns := Without(notifyDirs[dir], id);
        if cnxns == [] {
          notifyDirs := notifyDirs - {dir};
        } else {
          notifyDirs := notifyDirs[dir := cnxns];
        }
      }
    }

    /** handle_notify: calls every connection for the section once, and no other. */
    method HandleNotify(section: Path) returns (called: seq<nat>, handled: bool)
      requires Valid()
      ensures Distinct(called) && forall id :: id in called <==> id in notifyIds && notifyIds[id] == section
      ensures handled <==> exists id :: id in notifyIds && notifyIds[id] == section
    {
      var list := [];
      if section in notifyDirs {
        list := notifyDirs[section];
      }
      called, handled := [], false;
      var i := 0;
      while i < |list|
        invariant 0 <= i <= |list| && called == list[..i] && (handled <==> i > 0)
      {
        if notifyIds[list[i]] == section {
          called := called + [list[i]];
          handled := true;
        }
        i := i + 1;
      }
      assert called == list;
      assert handled ==> list[0] in notifyIds;
    }
  }
}
