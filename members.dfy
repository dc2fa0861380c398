/** Member-id generation and member insertion in modules/members.py. */
module Members {

  import opened Wrappers
  import opened Decimal

  /** A fetched row of the member table: column name to text; an absent key is NULL. */
  type Row = map<string, string>

  const IdPrefix: string := "NFC"

  const Columns: set<string> :=
    {"MemberID", "FirstName", "MiddleName", "LastName", "Gender", "DateJoined",
     "StationID", "Phone", "Email"}

  /** s.replace(pat, ""): every occurrence of pat, scanned left to right without overlap, deleted. */
  function RemoveAll(s: string, pat: string): (r: string)
    requires |pat| > 0
    ensures |r| <= |s|
    decreases |s|
  {
    if |s| < |pat| then s
    else if s[..|pat|] == pat then RemoveAll(s[|pat|..], pat)
    else [s[0]] + RemoveAll(s[1..], pat)
  }

  /** The number an existing id contributes: int(mid.replace("NFC", "")), or None where
      int(...) raises and the loop skips the id. */
  function IdNumber(mid: string): Option<nat>
  {
    ParseNat(RemoveAll(mid, IdPrefix))
  }

  /** [m["MemberID"] for m in members if m.get("MemberID")]: NULL and empty ids are dropped. */
  function ExistingIds(members: seq<Row>): (ids: seq<string>)
    ensures forall i :: 0 <= i < |ids| ==>
              ids[i] != "" && exists k :: 0 <= k < |members| && "MemberID" in members[k] && members[k]["MemberID"] == ids[i]
    ensures forall k :: 0 <= k < |members| && "MemberID" in members[k] && members[k]["MemberID"] != "" ==>
              members[k]["MemberID"] in ids
  {
    if members == [] then []
    else
      var m := members[0];
      (if "MemberID" in m && m["MemberID"] != "" then [m["MemberID"]] else [])
        + ExistingIds(members[1..])
  }

  /** The value of max_id after the loop has seen ids (starting from 0). */
  function MaxNumber(ids: seq<string>): nat
  {
    if ids == [] then 0
    else
      var m := MaxNumber(ids[..|ids| - 1]);
      match IdNumber(ids[|ids| - 1])
      case Some(num) => if num > m then num else m
      case None => m
  }

  /** f"NFC{n:03d}" */
  function MemberIdFor(n: nat): string
  {
    IdPrefix + ZeroPad(n, 3)
  }

  /** One iteration of the loop: the next id raises the maximum to its number if that is larger. */
  lemma MaxNumberStep(ids: seq<string>, i: nat)
    requires i < |ids|
    ensures var m := MaxNumber(ids[..i]);
            MaxNumber(ids[..i + 1]) == match IdNumber(ids[i])
                                       case Some(num) => if num > m then num else m
                                       case None => m
  {
    assert ids[..i + 1][..i] == ids[..i];
    assert ids[..i + 1][i] == ids[i];
  }

  /** Every parsed number is bounded by the loop's maximum. */
  lemma {:induction false} MaxNumberBounds(ids: seq<string>, i: nat)
    requires i < |ids| && IdNumber(ids[i]).Some?
    ensures IdNumber(ids[i]).value <= MaxNumber(ids)
  {
    if i < |ids| - 1 {
      MaxNumberBounds(ids[..|ids| - 1], i);
    }
  }

  /** An id whose remainder does not parse leaves the maximum where it was. */
  lemma SkippedIdIgnored(ids: seq<string>, mid: string)
    requires IdNumber(mid).None?
    ensures MaxNumber(ids + [mid]) == MaxNumber(ids)
  {
    assert (ids + [mid])[..|ids|] == ids;
  }

  /** With no parseable id the maximum stays 0. */
  lemma {:induction false} NoParsedIds(ids: seq<string>)
    requires forall i :: 0 <= i < |ids| ==> IdNumber(ids[i]).None?
    ensures MaxNumber(ids) == 0
  {
    if ids != [] {
      NoParsedIds(ids[..|ids| - 1]);
    }
  }

  /** The first id handed out is NFC001. */
  lemma FirstMemberId()
    ensures MemberIdFor(1) == "NFC001"
  {
    assert ToDecimal(1) == "1";
    assert Zeros(2) == "00" by { assert Zeros(1) == "0"; }
  }

  /** Text that does not contain the pattern's first character is left as it is. */
  lemma {:induction false} RemoveAllNoMatch(s: string, pat: string)
    requires |pat| > 0 && forall i :: 0 <= i < |s| ==> s[i] != pat[0]
    ensures RemoveAll(s, pat) == s
    decreases |s|
  {
    if |s| >= |pat| {
      assert s[..|pat|][0] != pat[0];
      RemoveAllNoMatch(s[1..], pat);
    }
  }

  /** replace deletes a leading occurrence of the pattern and carries on after it. */
  lemma RemoveAllPrefix(pat: string, t: string)
    requires |pat| > 0
    ensures RemoveAll(pat + t, pat) == RemoveAll(t, pat)
  {
    assert (pat + t)[..|pat|] == pat;
    assert (pat + t)[|pat|..] == t;
  }

  /** The maximum is 0 or the number of one of the ids the loop saw. */
  lemma {:induction false} MaxNumberAttained(ids: seq<string>)
    ensures MaxNumber(ids) == 0 || exists i :: 0 <= i < |ids| && IdNumber(ids[i]) == Some(MaxNumber(ids))
  {
    if ids != [] {
      var init := ids[..|ids| - 1];
      MaxNumberAttained(init);
      if MaxNumber(ids) != 0 && MaxNumber(ids) == MaxNumber(init) {
        var i :| 0 <= i < |init| && IdNumber(init[i]) == Some(MaxNumber(init));
        assert ids[i] == init[i];
      }
    }
  }

  /** A generated id gives back its number when it is parsed again. */
  lemma MemberIdNumber(n: nat)
    ensures IdNumber(MemberIdFor(n)) == Some(n)
  {
    var d := ZeroPad(n, 3);
    ZeroPadValue(n, 3);
    var s := IdPrefix + d;
    assert s[..3] == IdPrefix && s[3..] == d;
    RemoveAllNoMatch(d, IdPrefix);
  }

  /** Freshness: no id produced from the maximum plus one is already any member's id. */
  lemma Freshness(members: seq<Row>)
    ensures forall m :: m in members && "MemberID" in m ==>
              m["MemberID"] != MemberIdFor(MaxNumber(ExistingIds(members)) + 1)
  {
    var ids := ExistingIds(members);
    var next := MemberIdFor(MaxNumber(ids) + 1);
    MemberIdNumber(MaxNumber(ids) + 1);
    assert next !in ids by {
      if next in ids {
        var i :| 0 <= i < |ids| && ids[i] == next;
        MaxNumberBounds(ids, i);
      }
    }
    assert next != "" by { assert |next| >= 3; }
  }

  /** Why sqlite refuses to insert row into the member table, if it does. */
  function InsertError(members: seq<Row>, row: Row): Option<Error>
  {
    if !(row.Keys <= Columns) then Some(UnknownColumn)
    else if "FirstName" !in row || "LastName" !in row then Some(NotNullViolation)
    else if "MemberID" in row && exists m :: m in members && "MemberID" in m && m["MemberID"] == row["MemberID"]
      then Some(UniqueViolation)
    else None
  }

  class MembersModule {
    var members: seq<Row>

    constructor(rows: seq<Row>)
      ensures members == rows
    {
      members := rows;
    }

    /** generate_member_id: one more than the largest number found among existing ids. */
    method GenerateMemberId() returns (id: string)
      ensures id == MemberIdFor(MaxNumber(ExistingIds(members)) + 1)
      ensures |id| >= 6 && id[..3] == IdPrefix && AllDigits(id[3..])
      ensures IdNumber(id) == Some(MaxNumber(ExistingIds(members)) + 1)
      ensures forall m :: m in members && "MemberID" in m ==> m["MemberID"] != id
    {
      var existingIds := ExistingIds(members);
      var maxId: nat := 0;
      var i := 0;
      while i < |existingIds|
        invariant 0 <= i <= |existingIds|
        invariant maxId == MaxNumber(existingIds[..i])
      {
        var mid := existingIds[i];
        MaxNumberStep(existingIds, i);
        var num := IdNumber(mid);
        if num.None? {
          i := i + 1;
          continue;
        }
        if num.value > maxId {
          maxId := num.value;
        }
        i := i + 1;
      }
      assert existingIds[..i] == existingIds;
      assert maxId == MaxNumber(ExistingIds(members));
      id := MemberIdFor(maxId + 1);
      ZeroPadValue(maxId + 1, 3);
      MemberIdNumber(maxId + 1);
      Freshness(members);
    }

    /** add_member: the id is generated only when the caller supplied none; the (possibly
        extended) dictionary is returned because the source fills it in place. */
    method AddMember(memberData: Row) returns (data: Row, r: Outcome)
      modifies this
      ensures "MemberID" in memberData ==> data == memberData
      ensures "MemberID" !in memberData ==>
                data == memberData["MemberID" := MemberIdFor(MaxNumber(ExistingIds(old(members))) + 1)]
      ensures "MemberID" !in memberData ==> r != Fail(UniqueViolation)
      ensures r == (if InsertError(old(members), data).Some? then Fail(InsertError(old(members), data).value) else Pass)
      ensures members == if r.Pass? then old(members) + [data] else old(members)
    {
      data := memberData;
      if "MemberID" !in data {
        var id := GenerateMemberId();
        data := data["MemberID" := id];
      }
      var err := InsertError(members, data);
      if err.Some? {
        r := Fail(err.value);
      } else {
        members := members + [data];
        r := Pass;
      }
    }
  }
}
