/**
  src/MACEDigiMeshWrapper/interop.cpp: the byte messages that announce and request resources, and the
  parsers of the receiving side. Bytes are bv8 and ids are the 32-bit patterns of C++ ints, so masks and
  shifts are those of the source and negative ids need no special case.
*/
module ResourceWire {
  import opened Wrappers

  type Name = seq<bv8>

  const NUL: bv8 := 0
  const COMPONENT_ITEM_PRESENT: bv8 := 0x02
  const CONTAINED_VECHILES_REQUEST: bv8 := 0x03

  predicate NulFree(name: Name) { NUL !in name }

  // ---------------------------------------------------------------------------------------------
  // What the senders write

  /** The position of the first NUL from i on, or the end. */
  function NulIndex(chars: seq<bv8>, i: nat): (n: nat)
    requires i <= |chars|
    ensures i <= n <= |chars| && (n == |chars| || chars[n] == NUL)
    ensures forall k | i <= k < n :: chars[k] != NUL
    decreases |chars| - i
  {
    if i == |chars| || chars[i] == NUL then i else NulIndex(chars, i + 1)
  }

  function UpToNul(chars: seq<bv8>): (s: seq<bv8>)
    ensures s <= chars && NulFree(s)
    ensures s == chars || chars[|s|] == NUL
  {
    chars[..NulIndex(chars, 0)]
  }

  /** The part before the first NUL is determined by what it is. */
  lemma UpToNulIs(chars: seq<bv8>, s: seq<bv8>)
    requires s <= chars && NulFree(s)
    requires s == chars || chars[|s|] == NUL
    ensures UpToNul(chars) == s
  {
    var u := UpToNul(chars);
    if |s| < |u| {
      NotNulInside(chars, s, u);
    } else if |u| < |s| {
      NotNulInside(chars, u, s);
    }
  }

  lemma NotNulInside(chars: seq<bv8>, shorter: seq<bv8>, longer: seq<bv8>)
    requires shorter <= chars && longer <= chars && NulFree(longer) && |shorter| < |longer|
    ensures chars[|shorter|] != NUL
  {
    assert longer[|shorter|] == chars[|shorter|];
  }

  /** The do/while loop over a name writes its first character unseen, then goes on up to a NUL. */
  function Written(name: Name): seq<bv8>
    requires name != []
  {
    [name[0]] + UpToNul(name[1..])
  }

  function IdByte(id: bv32, i: nat): bv8
    requires i < 4
  {
    if i == 0 then ((id & 0xFF00_0000) >> 24) as bv8
    else if i == 1 then ((id & 0x00FF_0000) >> 16) as bv8
    else if i == 2 then ((id & 0x0000_FF00) >> 8) as bv8
    else (id & 0x0000_00FF) as bv8
  }

  function IdBytes(id: bv32): seq<bv8> { [IdByte(id, 0), IdByte(id, 1), IdByte(id, 2), IdByte(id, 3)] }

  /** A received byte moved to its place in the id. */
  function Placed(b: bv8, i: nat): bv32
    requires i < 4
  {
    if i == 0 then (b as bv32) << 24
    else if i == 1 then (b as bv32) << 16
    else if i == 2 then (b as bv32) << 8
    else b as bv32
  }

  function IdOf(bytes: seq<bv8>): bv32
    requires |bytes| == 4
  {
    Placed(bytes[0], 0) | Placed(bytes[1], 1) | Placed(bytes[2], 2) | Placed(bytes[3], 3)
  }

  /** The bytes of an id on the wire, most significant first. */
  lemma IdLayout(id: bv32)
    ensures IdBytes(id) == [((id >> 24) & 0xFF) as bv8, ((id >> 16) & 0xFF) as bv8, ((id >> 8) & 0xFF) as bv8,
                            (id & 0xFF) as bv8]
  {
  }

  lemma IdRoundTrip(id: bv32)
    ensures IdOf(IdBytes(id)) == id
  {
  }

  lemma BytesRoundTrip(bytes: seq<bv8>)
    requires |bytes| == 4
    ensures IdBytes(IdOf(bytes)) == bytes
  {
  }

  predicate AllNamed(names: seq<Name>) { forall i | 0 <= i < |names| :: names[i] != [] }

  predicate AllNulFree(names: seq<Name>) { forall i | 0 <= i < |names| :: NulFree(names[i]) }

  /** The body of an announcement: for each item its name, a NUL and the four bytes of its id. */
  function PrintItems(names: seq<Name>, ids: seq<bv32>): seq<bv8>
    requires |names| == |ids| && AllNamed(names)
  {
    if names == [] then []
    else Written(names[0]) + [NUL] + IdBytes(ids[0]) + PrintItems(names[1..], ids[1..])
  }

  /** The body of a request: each name and a NUL. */
  function PrintNames(names: seq<Name>): seq<bv8>
    requires AllNamed(names)
  {
    if names == [] then [] else Written(names[0]) + [NUL] + PrintNames(names[1..])
  }

  // ---------------------------------------------------------------------------------------------
  // What the parsers read; None when they would read behind the end of the message

  function Joined(names: seq<Name>, ids: seq<bv32>, later: Option<(seq<Name>, seq<bv32>)>):
    Option<(seq<Name>, seq<bv32>)>
  {
    match later case None => None case Some((ns, js)) => Some((names + ns, ids + js))
  }

  function ParseItems(body: seq<bv8>): Option<(seq<Name>, seq<bv32>)> {
    if body == [] then Some(([], []))
    else
      var n := |UpToNul(body)|;
      if |body| < n + 5 then None
      else
        Joined([body[..n]], [IdOf(body[n + 1..n + 5])], ParseItems(body[n + 5..]))
  }

  function JoinedNames(names: seq<Name>, later: Option<seq<Name>>): Option<seq<Name>> {
    match later case None => None case Some(ns) => Some(names + ns)
  }

  function ParseNames(body: seq<bv8>): Option<seq<Name>> {
    if body == [] then Some([])
    else
      var n := |UpToNul(body)|;
      if n == |body| then None
      else
        JoinedNames([body[..n]], ParseNames(body[n + 1..]))
  }

  // ---------------------------------------------------------------------------------------------
  // Round trips

  lemma NulEndsPrefix(prefix: seq<bv8>, rest: seq<bv8>)
    requires NulFree(prefix)
    ensures UpToNul(prefix + [NUL] + rest) == prefix
  {
    UpToNulIs(prefix + [NUL] + rest, prefix);
  }

  /** A name read back from its own bytes is the name exactly when it has no NUL inside. */
  lemma NameComesBackExactly(name: Name, rest: seq<bv8>)
    requires name != []
    ensures UpToNul(Written(name) + [NUL] + rest) == name <==> NulFree(name)
    ensures NulFree(name) ==> Written(name) == name
  {
    var tail := UpToNul(name[1..]);
    assert name == [name[0]] + name[1..];
    if name[0] == NUL {
      assert (Written(name) + [NUL] + rest)[0] == NUL;
    } else {
      NulEndsPrefix(Written(name), rest);
      if tail != name[1..] {
        assert name[1 + |tail|] == NUL;
      } else {
        assert Written(name) == name;
      }
    }
  }

  lemma AllNulFreeStep(names: seq<Name>)
    requires names != []
    ensures AllNulFree(names) <==> NulFree(names[0]) && AllNulFree(names[1..])
  {
    assert forall i | 1 <= i < |names| :: names[i] == names[1..][i - 1];
  }

  lemma ConsIsInjective(names: seq<Name>, ids: seq<bv32>, later: Option<(seq<Name>, seq<bv32>)>)
    requires names != [] && ids != []
    ensures Joined([names[0]], [ids[0]], later) == Some((names, ids)) <==> later == Some((names[1..], ids[1..]))
  {
    assert names == [names[0]] + names[1..] && ids == [ids[0]] + ids[1..];
    if later.Some? {
      assert ([names[0]] + later.value.0)[1..] == later.value.0;
      assert ([ids[0]] + later.value.1)[1..] == later.value.1;
    }
  }

  /** An announcement is its items one after the other. */
  lemma {:induction false} ItemsInParts(names: seq<Name>, ids: seq<bv32>, more: seq<Name>, moreIds: seq<bv32>)
    requires |names| == |ids| && |more| == |moreIds| && AllNamed(names) && AllNamed(more)
    ensures AllNamed(names + more)
    ensures PrintItems(names + more, ids + moreIds) == PrintItems(names, ids) + PrintItems(more, moreIds)
    decreases |names|
  {
    hide IdBytes, Written;
    if names == [] {
      assert names + more == more && ids + moreIds == moreIds;
    } else {
      assert (names + more)[1..] == names[1..] + more && (ids + moreIds)[1..] == ids[1..] + moreIds;
      ItemsInParts(names[1..], ids[1..], more, moreIds);
      Regroup(Written(names[0]), IdBytes(ids[0]), PrintItems(names[1..], ids[1..]), PrintItems(more, moreIds));
    }
  }

  lemma Regroup(written: seq<bv8>, bytes: seq<bv8>, a: seq<bv8>, b: seq<bv8>)
    ensures written + [NUL] + bytes + (a + b) == written + [NUL] + bytes + a + b
  {
  }

  /** One item: its name, one NUL, the four bytes of its id. */
  lemma ItemLayout(name: Name, id: bv32)
    requires name != [] && NulFree(name)
    ensures PrintItems([name], [id]) == name + [0x00] + IdBytes(id)
  {
    hide IdBytes;
    NameComesBackExactly(name, []);
    assert PrintItems([name], [id]) == name + [NUL] + IdBytes(id) + PrintItems([], []) by {
      assert [name][1..] == [] && [id][1..] == [];
    }
  }

  /** One more name at the end of a request: the name and one NUL. */
  lemma {:induction false} NamesLayout(names: seq<Name>, name: Name)
    requires AllNamed(names) && name != [] && NulFree(name)
    ensures AllNamed(names + [name]) && PrintNames(names + [name]) == PrintNames(names) + name + [0x00]
    decreases |names|
  {
    NameComesBackExactly(name, []);
    if names == [] {
      assert ([name])[1..] == [] && names + [name] == [name];
      assert PrintNames([name]) == name + [NUL] + [];
    } else {
      var first := Written(names[0]) + [NUL];
      assert (names + [name])[1..] == names[1..] + [name];
      NamesLayout(names[1..], name);
      assert first + (PrintNames(names[1..]) + name + [0x00]) == first + PrintNames(names[1..]) + name + [0x00];
    }
  }

  /** A body as the parser takes it: names may be empty, but hold no NUL. */
  function ItemsBody(names: seq<Name>, ids: seq<bv32>): seq<bv8>
    requires |names| == |ids|
  {
    if names == [] then [] else names[0] + [NUL] + IdBytes(ids[0]) + ItemsBody(names[1..], ids[1..])
  }

  lemma {:induction false} ItemsBodyIsParsed(names: seq<Name>, ids: seq<bv32>)
    requires |names| == |ids| && AllNulFree(names)
    ensures ParseItems(ItemsBody(names, ids)) == Some((names, ids))
    decreases |names|
  {
    if names != [] {
      var name, later := names[0], ItemsBody(names[1..], ids[1..]);
      var body := ItemsBody(names, ids);
      assert body == name + [NUL] + (IdBytes(ids[0]) + later);
      NulEndsPrefix(name, IdBytes(ids[0]) + later);
      var n := |name|;
      assert body[..n] == name && body[n + 1..n + 5] == IdBytes(ids[0]) && body[n + 5..] == later;
      IdRoundTrip(ids[0]);
      AllNulFreeStep(names);
      ItemsBodyIsParsed(names[1..], ids[1..]);
      ConsIsInjective(names, ids, ParseItems(later));
    }
  }

  lemma {:induction false} ParsedIsItemsBody(body: seq<bv8>)
    ensures var r := ParseItems(body);
            r.Some? ==> |r.value.0| == |r.value.1| && AllNulFree(r.value.0)
                        && ItemsBody(r.value.0, r.value.1) == body
    decreases |body|
  {
    var n := |UpToNul(body)|;
    if body != [] && |body| >= n + 5 && ParseItems(body[n + 5..]).Some? {
      ParsedIsItemsBody(body[n + 5..]);
      var (names, ids) := ParseItems(body[n + 5..]).value;
      var name, bytes := body[..n], body[n + 1..n + 5];
      var all, allIds := [name] + names, [IdOf(bytes)] + ids;
      assert ParseItems(body) == Some((all, allIds));
      assert all[1..] == names && allIds[1..] == ids;
      AllNulFreeStep(all);
      BytesRoundTrip(bytes);
      SplitItem(body, n);
    }
  }

  /**
    What the parser accepts, and what it returns, exactly: the names and ids of which the body is made. Every
    other body makes it read behind the end.
  */
  lemma ParsesExactly(body: seq<bv8>, names: seq<Name>, ids: seq<bv32>)
    ensures ParseItems(body) == Some((names, ids))
       <==> |names| == |ids| && AllNulFree(names) && ItemsBody(names, ids) == body
  {
    ParsedIsItemsBody(body);
    if |names| == |ids| && AllNulFree(names) {
      ItemsBodyIsParsed(names, ids);
    }
  }

  function NamesBody(names: seq<Name>): seq<bv8> {
    if names == [] then [] else names[0] + [NUL] + NamesBody(names[1..])
  }

  lemma {:induction false} NamesBodyIsParsed(names: seq<Name>)
    requires AllNulFree(names)
    ensures ParseNames(NamesBody(names)) == Some(names)
    decreases |names|
  {
    if names != [] {
      var name, later := names[0], NamesBody(names[1..]);
      var body := NamesBody(names);
      NulEndsPrefix(name, later);
      assert body[..|name|] == name && body[|name| + 1..] == later;
      AllNulFreeStep(names);
      NamesBodyIsParsed(names[1..]);
      assert names == [name] + names[1..];
    }
  }

  lemma SplitName(body: seq<bv8>, n: nat)
    requires n < |body| && body[n] == NUL
    ensures body == body[..n] + [NUL] + body[n + 1..]
  {
  }

  lemma {:induction false} ParsedIsNamesBody(body: seq<bv8>)
    ensures var r := ParseNames(body); r.Some? ==> AllNulFree(r.value) && NamesBody(r.value) == body
    decreases |body|
  {
    hide UpToNul, NulFree;
    var n := |UpToNul(body)|;
    if body != [] && n < |body| && ParseNames(body[n + 1..]).Some? {
      ParsedIsNamesBody(body[n + 1..]);
      var names := ParseNames(body[n + 1..]).value;
      var all := [body[..n]] + names;
      assert ParseNames(body) == Some(all) && all[1..] == names;
      assert all[0] == UpToNul(body);
      AllNulFreeStep(all);
      SplitName(body, n);
    }
  }

  /** The same for the request message. */
  lemma ParsesNamesExactly(body: seq<bv8>, names: seq<Name>)
    ensures ParseNames(body) == Some(names) <==> AllNulFree(names) && NamesBody(names) == body
  {
    ParsedIsNamesBody(body);
    if AllNulFree(names) {
      NamesBodyIsParsed(names);
    }
  }

  lemma SplitItem(body: seq<bv8>, n: nat)
    requires |body| >= n + 5 && body[n] == NUL
    ensures body == body[..n] + [NUL] + body[n + 1..n + 5] + body[n + 5..]
  {
  }

  lemma {:induction false} PrintedIsItemsBody(names: seq<Name>, ids: seq<bv32>)
    requires |names| == |ids| && AllNamed(names) && AllNulFree(names)
    ensures PrintItems(names, ids) == ItemsBody(names, ids)
    decreases |names|
  {
    if names != [] {
      NameComesBackExactly(names[0], []);
      AllNulFreeStep(names);
      PrintedIsItemsBody(names[1..], ids[1..]);
    }
  }

  /**
    Parsing undoes printing, exactly: the parser returns the announced names and ids if and only if no
    name holds a NUL. (An empty name makes the sender read behind the end of its string.)
  */
  lemma ItemsRoundTripExactly(names: seq<Name>, ids: seq<bv32>)
    requires |names| == |ids| && AllNamed(names)
    ensures ParseItems(PrintItems(names, ids)) == Some((names, ids)) <==> AllNulFree(names)
  {
    ParsesExactly(PrintItems(names, ids), names, ids);
    if AllNulFree(names) {
      PrintedIsItemsBody(names, ids);
    }
  }

  /** Printing undoes parsing: a message accepted with non-empty names is the one printed for them. */
  lemma PrintedAfterParsed(body: seq<bv8>)
    ensures var r := ParseItems(body);
            r.Some? ==> |r.value.0| == |r.value.1| && AllNulFree(r.value.0)
                        && (AllNamed(r.value.0) ==> PrintItems(r.value.0, r.value.1) == body)
  {
    ParsedIsItemsBody(body);
    if ParseItems(body).Some? {
      var (names, ids) := ParseItems(body).value;
      if AllNamed(names) { PrintedIsItemsBody(names, ids); }
    }
  }

  lemma {:induction false} PrintedIsNamesBody(names: seq<Name>)
    requires AllNamed(names) && AllNulFree(names)
    ensures PrintNames(names) == NamesBody(names)
    decreases |names|
  {
    if names != [] {
      NameComesBackExactly(names[0], []);
      AllNulFreeStep(names);
      PrintedIsNamesBody(names[1..]);
    }
  }

  /** The same for the request message. */
  lemma NamesRoundTripExactly(names: seq<Name>)
    requires AllNamed(names)
    ensures ParseNames(PrintNames(names)) == Some(names) <==> AllNulFree(names)
  {
    ParsesNamesExactly(PrintNames(names), names);
    if AllNulFree(names) {
      PrintedIsNamesBody(names);
    }
  }

  // ---------------------------------------------------------------------------------------------
  // The loops

  /** The do/while loop that appends a name and its NUL. */
  method PushName(packet: seq<bv8>, name: Name) returns (r: seq<bv8>)
    requires name != []
    ensures r == packet + Written(name) + [NUL]
  {
    r := packet + [name[0]];
    var pos := 1;
    while pos < |name| && name[pos] != NUL
      invariant 1 <= pos <= |name|
      invariant r == packet + name[..pos]
      invariant NulFree(name[1..pos])
    {
      r := r + [name[pos]];
      pos := pos + 1;
    }
    UpToNulIs(name[1..], name[1..pos]);
    assert Written(name) == name[..pos];
    r := r + [NUL];
  }

  lemma OneMoreByte(id: bv32, i: nat)
    requires i < 4
    ensures IdBytes(id)[..i + 1] == IdBytes(id)[..i] + [IdByte(id, i)]
  {
    hide IdByte;
    assert IdBytes(id)[i] == IdByte(id, i);
  }

  method PushId(packet: seq<bv8>, id: bv32) returns (r: seq<bv8>)
    ensures r == packet + IdBytes(id)
  {
    hide IdByte;
    r := packet;
    var i := 0;
    while i < 4
      invariant 0 <= i <= 4
      invariant r == packet + IdBytes(id)[..i]
    {
      OneMoreByte(id, i);
      r := r + [IdByte(id, i)];
      i := i + 1;
    }
    assert IdBytes(id)[..i] == IdBytes(id);
  }

  /** send_item_present_message; None where the source throws. */
  method SendItemPresentMessage(names: seq<Name>, ids: seq<bv32>) returns (r: Option<seq<bv8>>)
    requires AllNamed(names)
    ensures |names| != |ids| ==> r == None
    ensures |names| == |ids| ==> r == Some([0x02] + PrintItems(names, ids))
  {
    if |names| != |ids| {
      return None;
    }
    var packet := [COMPONENT_ITEM_PRESENT];
    var i := 0;
    while i < |names|
      invariant 0 <= i <= |names|
      invariant AllNamed(names[i..])
      invariant packet + PrintItems(names[i..], ids[i..]) == [COMPONENT_ITEM_PRESENT] + PrintItems(names, ids)
    {
      ghost var before := packet;
      packet := PushName(packet, names[i]);
      packet := PushId(packet, ids[i]);
      ItemInFront(before, names, ids, i);
      i := i + 1;
    }
    assert names[i..] == [];
    assert packet + [] == packet;
    r := Some(packet);
  }

  lemma RegroupPacket(packet: seq<bv8>, written: seq<bv8>, bytes: seq<bv8>, later: seq<bv8>)
    ensures packet + (written + [NUL] + bytes + later) == packet + written + [NUL] + bytes + later
  {
  }

  lemma ItemInFront(packet: seq<bv8>, names: seq<Name>, ids: seq<bv32>, i: nat)
    requires |names| == |ids| && i < |names| && AllNamed(names[i..])
    ensures names[i] != [] && AllNamed(names[i + 1..])
    ensures packet + PrintItems(names[i..], ids[i..])
         == packet + Written(names[i]) + [NUL] + IdBytes(ids[i]) + PrintItems(names[i + 1..], ids[i + 1..])
  {
    assert names[i..][0] == names[i];
    assert names[i..][1..] == names[i + 1..] && ids[i..][1..] == ids[i + 1..];
    RegroupPacket(packet, Written(names[i]), IdBytes(ids[i]), PrintItems(names[i + 1..], ids[i + 1..]));
  }

  /** RequestContainedResources. */
  method RequestContainedResources(names: seq<Name>) returns (packet: seq<bv8>)
    requires AllNamed(names)
    ensures packet == [0x03] + PrintNames(names)
  {
    packet := [CONTAINED_VECHILES_REQUEST];
    var i := 0;
    while i < |names|
      invariant 0 <= i <= |names|
      invariant AllNamed(names[i..])
      invariant packet + PrintNames(names[i..]) == [CONTAINED_VECHILES_REQUEST] + PrintNames(names)
    {
      ghost var before := packet;
      packet := PushName(packet, names[i]);
      NameInFront(before, names, i);
      i := i + 1;
    }
    assert names[i..] == [];
    assert packet + [] == packet;
  }

  lemma NameInFront(packet: seq<bv8>, names: seq<Name>, i: nat)
    requires i < |names| && AllNamed(names[i..])
    ensures names[i] != [] && AllNamed(names[i + 1..])
    ensures packet + PrintNames(names[i..]) == packet + Written(names[i]) + [NUL] + PrintNames(names[i + 1..])
  {
    assert names[i..][0] == names[i];
    assert names[i..][1..] == names[i + 1..];
    RegroupPacket(packet, Written(names[i]), [], PrintNames(names[i + 1..]));
    assert Written(names[i]) + [NUL] + [] == Written(names[i]) + [NUL];
    assert packet + Written(names[i]) + [NUL] + [] == packet + Written(names[i]) + [NUL];
  }

  /** The inner loop of both parsers: from `pos` to the next NUL, or to the end of the message. */
  method ReadName(msg: seq<bv8>, start: nat) returns (element: Name, pos: nat)
    requires start <= |msg|
    ensures element == UpToNul(msg[start..]) && pos == start + |element|
  {
    element := [];
    pos := start;
    while pos < |msg| && msg[pos] != NUL
      invariant start <= pos <= |msg|
      invariant element == msg[start..pos] && NulFree(element)
    {
      element := element + [msg[pos]];
      pos := pos + 1;
    }
    UpToNulIs(msg[start..], element);
  }

  /** The COMPONENT_ITEM_PRESENT branch of on_message_received. */
  method ParseItemPresent(msg: seq<bv8>) returns (r: Option<(seq<Name>, seq<bv32>)>)
    requires |msg| >= 1
    ensures r == ParseItems(msg[1..])
  {
    var names: seq<Name>, ids: seq<bv32> := [], [];
    var pos := 1;
    ghost var whole := ParseItems(msg[1..]);
    JoinedWithNothing(whole);
    while pos < |msg|
      invariant 1 <= pos <= |msg|
      invariant whole == Joined(names, ids, ParseItems(msg[pos..]))
    {
      var element, end := ReadName(msg, pos);
      if end + 5 > |msg| {
        return None;
      }
      ItemParsed(names, ids, msg, pos, element, end);
      pos := end + 1;
      var id := ReadId(msg[pos..pos + 4]);
      pos := pos + 4;
      names := names + [element];
      ids := ids + [id];
    }
    assert msg[pos..] == [];
    assert names + [] == names && ids + [] == ids;
    r := Some((names, ids));
  }

  lemma ItemParsed(names: seq<Name>, ids: seq<bv32>, msg: seq<bv8>, pos: nat, element: Name, end: nat)
    requires pos < |msg| && element == UpToNul(msg[pos..]) && end == pos + |element| && end + 5 <= |msg|
    ensures Joined(names, ids, ParseItems(msg[pos..]))
         == Joined(names + [element], ids + [IdOf(msg[end + 1..end + 5])], ParseItems(msg[end + 5..]))
  {
    ItemAt(msg, pos, end);
    JoinedStep(names, ids, element, IdOf(msg[end + 1..end + 5]), ParseItems(msg[end + 5..]));
  }

  /** The parser of a suffix, by positions in the whole message. */
  lemma ItemAt(msg: seq<bv8>, pos: nat, end: nat)
    requires pos < |msg| && end == pos + |UpToNul(msg[pos..])| && end + 5 <= |msg|
    ensures ParseItems(msg[pos..])
         == Joined([UpToNul(msg[pos..])], [IdOf(msg[end + 1..end + 5])], ParseItems(msg[end + 5..]))
  {
    var body, n := msg[pos..], end - pos;
    assert body[n + 1..n + 5] == msg[end + 1..end + 5];
    assert body[n + 5..] == msg[end + 5..];
    assert body[..n] == UpToNul(body);
  }

  /** The loop that ORs the four bytes into the id. */
  method ReadId(bytes: seq<bv8>) returns (id: bv32)
    requires |bytes| == 4
    ensures id == IdOf(bytes)
  {
    id := 0;
    var i := 0;
    while i < 4
      invariant 0 <= i <= 4
      invariant id | Places(bytes, i) == IdOf(bytes)
    {
      id := id | Placed(bytes[i], i);
      i := i + 1;
    }
  }

  /** The bytes of an id from position i on, in place. */
  function Places(bytes: seq<bv8>, i: nat): bv32
    requires |bytes| == 4 && i <= 4
    decreases 4 - i
  {
    if i == 4 then 0 else Placed(bytes[i], i) | Places(bytes, i + 1)
  }

  lemma JoinedWithNothing(later: Option<(seq<Name>, seq<bv32>)>)
    ensures Joined([], [], later) == later
  {
    if later.Some? {
      assert [] + later.value.0 == later.value.0 && [] + later.value.1 == later.value.1;
    }
  }

  lemma JoinedStep(names: seq<Name>, ids: seq<bv32>, name: Name, id: bv32, later: Option<(seq<Name>, seq<bv32>)>)
    ensures Joined(names, ids, Joined([name], [id], later)) == Joined(names + [name], ids + [id], later)
  {
    if later.Some? {
      assert names + ([name] + later.value.0) == (names + [name]) + later.value.0;
      assert ids + ([id] + later.value.1) == (ids + [id]) + later.value.1;
    }
  }

  /** The CONTAINED_VECHILES_REQUEST branch of on_message_received, up to the look-up of the resources. */
  method ParseContainedRequest(msg: seq<bv8>) returns (r: Option<seq<Name>>)
    requires |msg| >= 1
    ensures r == ParseNames(msg[1..])
  {
    var names: seq<Name> := [];
    var pos := 1;
    ghost var whole := ParseNames(msg[1..]);
    NamesWithNothing(whole);
    while pos < |msg|
      invariant 1 <= pos <= |msg|
      invariant whole == JoinedNames(names, ParseNames(msg[pos..]))
    {
      var found, element, next := NextName(msg, pos, names);
      if !found {
        return None;
      }
      names := names + [element];
      pos := next;
    }
    assert msg[pos..] == [];
    NothingLeft(names);
    r := Some(names);
  }

  /** One iteration of the request parser: a name and the NUL behind it. */
  method NextName(msg: seq<bv8>, pos: nat, ghost names: seq<Name>)
    returns (found: bool, element: Name, next: nat)
    requires pos < |msg|
    ensures !found ==> JoinedNames(names, ParseNames(msg[pos..])) == None
    ensures found ==> pos < next <= |msg|
    ensures found ==>
              JoinedNames(names, ParseNames(msg[pos..])) == JoinedNames(names + [element], ParseNames(msg[next..]))
  {
    element, next := ReadName(msg, pos);
    NameStep(names, msg, pos, element);
    found := next < |msg|;
    next := next + 1;
  }

  lemma NothingLeft(names: seq<Name>)
    ensures JoinedNames(names, ParseNames([])) == Some(names)
  {
    assert names + [] == names;
  }

  lemma NameStep(names: seq<Name>, msg: seq<bv8>, pos: nat, element: Name)
    requires pos < |msg| && element == UpToNul(msg[pos..])
    ensures pos + |element| == |msg| ==> JoinedNames(names, ParseNames(msg[pos..])) == None
    ensures pos + |element| < |msg| ==>
              JoinedNames(names, ParseNames(msg[pos..]))
              == JoinedNames(names + [element], ParseNames(msg[pos + |element| + 1..]))
  {
    var end := pos + |element|;
    if end < |msg| {
      NameAt(msg, pos, end);
      NamesStep(names, element, ParseNames(msg[end + 1..]));
    }
  }

  lemma NameAt(msg: seq<bv8>, pos: nat, end: nat)
    requires pos < |msg| && end == pos + |UpToNul(msg[pos..])| && end < |msg|
    ensures ParseNames(msg[pos..]) == JoinedNames([UpToNul(msg[pos..])], ParseNames(msg[end + 1..]))
  {
    assert msg[pos..][end - pos + 1..] == msg[end + 1..];
    assert msg[pos..][..end - pos] == UpToNul(msg[pos..]);
  }

  lemma NamesWithNothing(later: Option<seq<Name>>)
    ensures JoinedNames([], later) == later
  {
    if later.Some? { assert [] + later.value == later.value; }
  }

  lemma NamesStep(names: seq<Name>, name: Name, later: Option<seq<Name>>)
    ensures JoinedNames(names, JoinedNames([name], later)) == JoinedNames(names + [name], later)
  {
    if later.Some? {
      assert names + ([name] + later.value) == (names + [name]) + later.value;
    }
  }
}
