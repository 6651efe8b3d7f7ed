/**
 * Room identifiers. A room is listed only when its name is a version-4 UUID
 * (RFC 4122, section 4.4). Every socket also sits in a default room that
 * socket.io names after the socket's own id. Those ids are not UUIDs, so
 * the filter hides them.
 */
module RoomIds {
  import opened Sequences

  type RoomID = string

  predicate IsHexDigit(c: char) {
    '0' <= c <= '9' || 'a' <= c <= 'f' || 'A' <= c <= 'F'
  }

  /** The positions of the four hyphens in `xxxxxxxx-xxxx-Mxxx-Nxxx-xxxxxxxxxxxx`. */
  predicate IsHyphenPosition(i: int) {
    i == 8 || i == 13 || i == 18 || i == 23
  }

  /**
   * `validate(roomID) && version(roomID) === 4`. The `uuid` package is not
   * part of this model. It is stood in for by the canonical textual shape
   * that its `validate` accepts: 32 hex digits in either case, grouped 8-4-4-4-12,
   * with the variant nibble (position 19) one of 8, 9, a or b. `version`
   * reads the hex digit at position 14. The nil UUID passes `validate` but
   * has version 0, so it is not listed here.
   */
  predicate ValidateRoomID(roomID: string) {
    && |roomID| == 36
    && (forall i :: 0 <= i < 36 ==>
          if IsHyphenPosition(i) then roomID[i] == '-' else IsHexDigit(roomID[i]))
    && roomID[14] == '4'
    && roomID[19] in "89abAB"
  }

  /**
   * `Array.from(rooms.keys()).filter((roomID) => validateRoomID(roomID))`:
   * the keys that are v4 UUIDs, in key order. Keys are never repeated,
   * and the filter repeats none.
   */
  function FilterRoomIDs(keys: seq<RoomID>): (rooms: seq<RoomID>)
    ensures forall r :: r in rooms <==> r in keys && ValidateRoomID(r)
    ensures |rooms| <= |keys|
    ensures Distinct(keys) ==> Distinct(rooms)
  {
    if keys == [] then []
    else if ValidateRoomID(keys[0]) then
      var tail := FilterRoomIDs(keys[1..]);
      assert Distinct(keys) ==> Distinct([keys[0]] + tail) by {
        if Distinct(keys) {
          DistinctPrepend(keys[0], tail);
        }
      }
      [keys[0]] + tail
    else
      FilterRoomIDs(keys[1..])
  }

  /** When every key is a v4 UUID the filter keeps all of them, in order. */
  lemma {:induction false} FilterKeepsValidKeys(keys: seq<RoomID>)
    requires forall k :: k in keys ==> ValidateRoomID(k)
    ensures FilterRoomIDs(keys) == keys
  {
    if keys != [] {
      FilterKeepsValidKeys(keys[1..]);
      assert keys == [keys[0]] + keys[1..];
    }
  }

  /** When no key is a v4 UUID, for instance when only default rooms exist, nothing is listed. */
  lemma {:induction false} FilterDropsInvalidKeys(keys: seq<RoomID>)
    requires forall k :: k in keys ==> !ValidateRoomID(k)
    ensures FilterRoomIDs(keys) == []
  {
    if keys != [] {
      FilterDropsInvalidKeys(keys[1..]);
    }
  }

  /** A key added at the end of the order is listed at the end exactly when it is a v4 UUID. */
  lemma {:induction false} FilterRoomIDsAppend(keys: seq<RoomID>, key: RoomID)
    ensures FilterRoomIDs(keys + [key]) == FilterRoomIDs(keys) + (if ValidateRoomID(key) then [key] else [])
  {
    if keys == [] {
      assert [key][1..] == [];
    } else {
      FilterRoomIDsAppend(keys[1..], key);
      assert (keys + [key])[1..] == keys[1..] + [key];
    }
  }

  /**
   * A socket.io id is 20 characters long, so it never passes the check, and
   * a socket's default room is never listed.
   */
  lemma SocketIdIsNotRoomID(id: string)
    requires |id| == 20
    ensures !ValidateRoomID(id)
  {
  }

  /** A concrete v4 UUID passes the check. The same text with version digit 1 does not, and neither does the nil UUID. */
  lemma ValidateRoomIDExamples()
    ensures ValidateRoomID("110ec58a-a0f2-4ac4-8393-c866d813b8d1")
    ensures !ValidateRoomID("110ec58a-a0f2-1ac4-8393-c866d813b8d1")
    ensures !ValidateRoomID("00000000-0000-0000-0000-000000000000")
  {
    var id := "110ec58a-a0f2-4ac4-8393-c866d813b8d1";
    forall i | 0 <= i < 36
      ensures if IsHyphenPosition(i) then id[i] == '-' else IsHexDigit(id[i])
    {
    }
  }
}
