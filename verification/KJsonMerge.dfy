/** RFC 7396 as cJSON_Utils.c does it: applying merge patches and generating them. */
module KJsonMerge {
  import opened Octets
  import opened KJson
  import opened KJsonStrings
  import opened KJsonSort
  import opened KJsonPatch

  /** merge_patch; a target of None is the NULL of a name that was not there. */
  function MergePatch(target: Option<Json>, patch: Json, caseSensitive: bool): Json
    decreases patch, 0
  {
    if !patch.Object? then patch
    else
      var base := if target.Some? && target.value.Object? then target.value.members else NoMember;
      Object(MergeMembers(base, patch.members, caseSensitive))
  }

  /** The loop over the members of the patch. */
  function MergeMembers(target: Members, patch: Members, caseSensitive: bool): Members
    decreases patch
  {
    match patch
    case NoMember => target
    case Member(k, v, next) => MergeMembers(MergeMember(target, k, v, caseSensitive), next, caseSensitive)
  }

  function MergeMember(target: Members, k: Text, v: Json, caseSensitive: bool): Members
    decreases v, 1
  {
    var rest := RemoveMember(target, k, caseSensitive);
    if v.Null? then rest else AddMember(rest, k, MergePatch(Lookup(target, k, caseSensitive), v, caseSensitive))
  }

  /** generate_merge_patch; None is the NULL that says there is nothing to patch. */
  function GenerateMerge(from: Json, to: Json, caseSensitive: bool): Option<Json>
    decreases Size(from) + Size(to), 1
  {
    if !to.Object? || !from.Object? then Some(to)
    else
      var members := MergeWalk(SortMembers(from.members, caseSensitive), SortMembers(to.members, caseSensitive), caseSensitive);
      if members.NoMember? then None else Some(Object(members))
  }

  /** The walk over both sorted objects. Nested objects are always generated without regard to case, and a nested
      NULL is not added. */
  function MergeWalk(f: Members, t: Members, caseSensitive: bool): Members
    decreases MembersSize(f) + MembersSize(t), 2
  {
    if f.NoMember? && t.NoMember? then NoMember
    else
      var diff := if f.NoMember? then 1 else if t.NoMember? then -1 else CompareStrings(f.key, t.key, true);
      if diff < 0 then Member(f.key, Null, MergeWalk(f.next, t, caseSensitive))
      else if diff > 0 then Member(t.key, t.value, MergeWalk(f, t.next, caseSensitive))
      else
        var rest := MergeWalk(f.next, t.next, caseSensitive);
        if CompareJson(f.value, t.value, caseSensitive) then rest
        else
          match GenerateMerge(f.value, t.value, false)
          case None => rest
          case Some(patch) => Member(t.key, patch, rest)
  }
}
