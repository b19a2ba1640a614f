/** Rooms and halls of the hw05 wumpus game.

    In the Rust code a hall holds shared, mutable references to the two
    rooms it joins, and a room holds shared references to its halls. Only
    room NAMES are ever read through those references (`other` compares
    names, `neighbors_string` prints them), so a hall here holds the names
    of its two ends, and `Other` returns the name of the room at the far
    end. The curios in a room are kept opaque as a type parameter. */
module Game {
  import opened Base

  datatype Hall = Hall(left: string, right: string)

  datatype Room<C> = Room(name: string, contents: seq<C>, halls: seq<Hall>, wumpus: bool)

  /** `Hall::new`. */
  function NewHall<C>(left: Room<C>, right: Room<C>): (h: Hall)
    ensures h.left == left.name && h.right == right.name
  {
    Hall(left.name, right.name)
  }

  /** `Hall::other`: the far end of h as seen from room. The left end is
      tried first, so a hall whose two ends share a name always answers
      with its right end. `None` stands for the panic on a room that is at
      neither end. */
  function Other<C>(h: Hall, room: Room<C>): (r: Option<string>)
    ensures r.None? <==> room.name != h.left && room.name != h.right
    ensures room.name == h.left ==> r == Some(h.right)
    ensures room.name != h.left && room.name == h.right ==> r == Some(h.left)
  {
    if room.name == h.left then Some(h.right)
    else if room.name == h.right then Some(h.left)
    else None
  }

  /** Going to the far end and asking again leads back, for a hall whose
      ends have different names; a hall whose ends share a name leads to
      its right end from either side. */
  lemma OtherRoundTrip<C>(h: Hall, room: Room<C>, far: Room<C>)
    requires Other(h, room).Some? && far.name == Other(h, room).value
    ensures h.left != h.right ==> Other(h, far) == Some(room.name)
    ensures h.left == h.right ==> Other(h, far) == Some(h.right) && room.name == h.right
  {
  }

  /** Rooms are equal when their names are: `PartialEq for Room`. */
  predicate RoomEq<C>(a: Room<C>, b: Room<C>)
  {
    a.name == b.name
  }

  /** `RoomEq` is an equivalence, as `impl Eq for Room` promises, and it
      ignores contents, halls and the wumpus. */
  lemma RoomEqIsEquivalence<C>(a: Room<C>, b: Room<C>, c: Room<C>)
    ensures RoomEq(a, a)
    ensures RoomEq(a, b) ==> RoomEq(b, a)
    ensures RoomEq(a, b) && RoomEq(b, c) ==> RoomEq(a, c)
    ensures RoomEq(a, a.(contents := c.contents, halls := c.halls, wumpus := c.wumpus))
  {
  }

  /** `Room::new`: no halls yet. */
  function NewRoom<C>(name: string, contents: seq<C>, wumpus: bool): (r: Room<C>)
    ensures r.name == name && r.contents == contents && r.wumpus == wumpus
    ensures r.halls == []
  {
    Room(name, contents, [], wumpus)
  }

  /** `Room::add_hall`: the hall goes last; nothing else changes. */
  function AddHall<C>(room: Room<C>, h: Hall): (r: Room<C>)
    ensures r.halls == room.halls + [h]
    ensures r.name == room.name && r.contents == room.contents && r.wumpus == room.wumpus
  {
    room.(halls := room.halls + [h])
  }

  /** Every hall of the room has the room at one of its ends, so `other`
      never panics. */
  predicate Connected<C>(room: Room<C>)
  {
    forall i :: 0 <= i < |room.halls| ==> Other(room.halls[i], room).Some?
  }

  /** The names of the rooms at the far ends of the room's halls, in hall
      order; `None` if some hall does not touch the room. */
  function NeighborNames<C>(room: Room<C>, halls: seq<Hall>): (r: Option<seq<string>>)
    ensures r.Some? <==> forall i :: 0 <= i < |halls| ==> Other(halls[i], room).Some?
    ensures r.Some? ==>
      (|r.value| == |halls| && forall i :: 0 <= i < |halls| ==> Some(r.value[i]) == Other(halls[i], room))
  {
    if |halls| == 0 then Some([])
    else
      var first := Other(halls[0], room);
      var rest := NeighborNames(room, halls[1..]);
      if first.Some? && rest.Some? then Some([first.value] + rest.value) else None
  }

  /** `Vec::join(" ")`: the strings separated by single spaces. */
  function Join(xs: seq<string>): string
  {
    if |xs| == 0 then ""
    else if |xs| == 1 then xs[0]
    else xs[0] + " " + Join(xs[1..])
  }

  /** `Room::neighbors_string`; `None` stands for the panic in `other`. */
  function NeighborsString<C>(room: Room<C>): (r: Option<string>)
    ensures r.Some? <==> Connected(room)
  {
    match NeighborNames(room, room.halls)
    case None => None
    case Some(names) => Some(Join(names))
  }

  /** A room without halls has an empty neighbour string. */
  lemma NoHallsNoNeighbors<C>(name: string, contents: seq<C>, wumpus: bool)
    ensures NeighborsString(NewRoom(name, contents, wumpus)) == Some("")
  {
  }

  /** Adding a hall appends its far end's name to the neighbour list. */
  lemma {:induction false} AddHallNeighbors<C>(room: Room<C>, halls: seq<Hall>, h: Hall)
    requires Other(h, room).Some?
    ensures NeighborNames(room, halls + [h]) ==
      match NeighborNames(room, halls)
      case None => None
      case Some(ns) => Some(ns + [Other(h, room).value])
    decreases |halls|
  {
    if |halls| > 0 {
      var hs := halls + [h];
      assert hs[0] == halls[0];
      assert hs[1..] == halls[1..] + [h];
      AddHallNeighbors(room, halls[1..], h);
      var first := Other(halls[0], room);
      var rest := NeighborNames(room, halls[1..]);
      if first.Some? && rest.Some? {
        var n := first.value;
        assert NeighborNames(room, hs) == Some([n] + (rest.value + [Other(h, room).value]));
        assert [n] + (rest.value + [Other(h, room).value]) == ([n] + rest.value) + [Other(h, room).value];
      }
    } else {
      assert halls + [h] == [h];
      assert [h][1..] == [] && [h][0] == h;
      assert NeighborNames(room, []) == Some([]);
      assert [Other(h, room).value] + [] == [Other(h, room).value];
      assert [] + [Other(h, room).value] == [Other(h, room).value];
    }
  }

  /** Only the room's name matters to the neighbour list. */
  lemma {:induction false} NeighborNamesByName<C>(a: Room<C>, b: Room<C>, halls: seq<Hall>)
    requires a.name == b.name
    ensures NeighborNames(a, halls) == NeighborNames(b, halls)
    decreases |halls|
  {
    if |halls| > 0 {
      NeighborNamesByName(a, b, halls[1..]);
    }
  }

  /** `add_hall` followed by `neighbors_string` lists the new hall's far
      end after the earlier neighbours. */
  lemma AddHallThenNeighbors<C>(room: Room<C>, h: Hall)
    requires Connected(room) && Other(h, room).Some?
    ensures Connected(AddHall(room, h))
    ensures NeighborsString(AddHall(room, h)) ==
      Some(Join(NeighborNames(room, room.halls).value + [Other(h, room).value]))
  {
    var r := AddHall(room, h);
    NeighborNamesByName(r, room, r.halls);
    AddHallNeighbors(room, room.halls, h);
  }

  // ---------------------------------------------------------------------
  // Reading the neighbour string back

  /** `str::split(' ')`: the pieces between single spaces. */
  function Split(s: string): (r: seq<string>)
    ensures |r| >= 1
  {
    if |s| == 0 then [""]
    else
      var rest := Split(s[1..]);
      if s[0] == ' ' then [""] + rest else [[s[0]] + rest[0]] + rest[1..]
  }

  predicate NoSpace(w: string)
  {
    forall i :: 0 <= i < |w| ==> w[i] != ' '
  }

  /** A word without spaces in front of s extends the first piece. */
  lemma {:induction false} SplitWord(w: string, s: string)
    requires NoSpace(w)
    ensures Split(w + s) == [w + Split(s)[0]] + Split(s)[1..]
    decreases |w|
  {
    if |w| > 0 {
      assert (w + s)[0] == w[0];
      assert (w + s)[1..] == w[1..] + s;
      SplitWord(w[1..], s);
      var rest := Split(w[1..] + s);
      assert rest == [w[1..] + Split(s)[0]] + Split(s)[1..];
      assert Split(w + s) == [[w[0]] + rest[0]] + rest[1..];
      assert [w[0]] + (w[1..] + Split(s)[0]) == w + Split(s)[0];
    } else {
      assert w + s == s;
      assert w + Split(s)[0] == Split(s)[0];
      assert Split(s) == [Split(s)[0]] + Split(s)[1..];
    }
  }

  /** Splitting the neighbour string at spaces gives back the names, when
      there is at least one and no name contains a space. */
  lemma {:induction false} SplitJoin(xs: seq<string>)
    requires |xs| >= 1
    requires forall i :: 0 <= i < |xs| ==> NoSpace(xs[i])
    ensures Split(Join(xs)) == xs
    decreases |xs|
  {
    if |xs| == 1 {
      SplitWord(xs[0], "");
      assert xs[0] + "" == xs[0];
    } else {
      var j := Join(xs[1..]);
      SplitJoin(xs[1..]);
      SplitWord(xs[0], " " + j);
      assert Join(xs) == xs[0] + (" " + j);
      assert (" " + j)[0] == ' ';
      assert (" " + j)[1..] == j;
      assert Split(" " + j) == [""] + Split(j);
      assert xs[0] + "" == xs[0];
      assert xs == [xs[0]] + xs[1..];
    }
  }

  /** The neighbour string of a connected room lists, in hall order, the
      names at the far ends of its halls, recoverable by splitting at
      spaces when the room has a hall and no name contains a space. */
  lemma NeighborsStringSpec<C>(room: Room<C>)
    requires Connected(room) && |room.halls| >= 1
    requires forall i :: 0 <= i < |room.halls| ==> NoSpace(Other(room.halls[i], room).value)
    ensures var names := NeighborNames(room, room.halls).value;
      && Split(NeighborsString(room).value) == names
      && forall i :: 0 <= i < |room.halls| ==> names[i] == Other(room.halls[i], room).value
  {
    var names := NeighborNames(room, room.halls).value;
    assert forall i :: 0 <= i < |names| ==> Some(names[i]) == Other(room.halls[i], room);
    SplitJoin(names);
  }

  /** A two-room map: each room lists the other as its neighbour. */
  lemma TwoRoomScenario()
    ensures var a := NewRoom<int>("a", [], false);
      var b := NewRoom<int>("b", [], true);
      var h := NewHall(a, b);
      NeighborsString(AddHall(a, h)) == Some("b") && NeighborsString(AddHall(b, h)) == Some("a")
  {
  }
}
