/** The reference-count protocol of hard links (link_write.go, delete_write.go) on version 2 headers of datasets.
    Headers are records holding an optional reference-count message; groups are a fixed set of paths. */
module HardLinks {
  import opened Bytes
  import opened Storage

  type Path = seq<byte>

  const SLASH: byte := 47

  // ---- paths ----

  /** Index of the last slash. */
  function LastSlash(path: Path): (i: nat)
    requires exists k :: 0 <= k < |path| && path[k] == SLASH
    ensures i < |path| && path[i] == SLASH && forall k | i < k < |path| :: path[k] != SLASH
  {
    var n := |path| - 1;
    if path[n] == SLASH then n
    else
      assert exists k :: 0 <= k < n && path[..n][k] == SLASH by {
        var k :| 0 <= k < |path| && path[k] == SLASH;
        assert path[..n][k] == SLASH;
      }
      LastSlash(path[..n])
  }

  /** parsePath: one trailing slash is dropped, then the last slash separates parent and name. */
  function ParsePath(path: Path): (p: (Path, Path))
    requires path != [] && path[0] == SLASH
    ensures |path| > 1 ==> path == p.0 + [47] + p.1 || path == p.0 + [47] + p.1 + [47]
    ensures 47 !in p.1
  {
    if |path| == 1 then ([], [])
    else
      var t := if path[|path| - 1] == SLASH then path[..|path| - 1] else path;
      assert t[0] == SLASH;
      var i := LastSlash(t);
      assert t == t[..i] + [SLASH] + t[i + 1..];
      (t[..i], t[i + 1..])
  }

  predicate Rooted(path: Path) { path != [] && path[0] == SLASH }

  /** validateLinkPath. */
  predicate ValidLinkPath(path: Path)
  {
    path != [] && path[0] == SLASH && |path| > 1 && forall i | 0 <= i < |path| - 1 :: !(path[i] == SLASH && path[i + 1] == SLASH)
  }

  // ---- entries and counts ----

  /** A group entry. */
  datatype Entry = Entry(parent: Path, name: Path, target: u64)

  /** Index of the first entry of the path, or the number of entries. */
  function First(links: seq<Entry>, path: (Path, Path)): (i: nat)
    ensures i <= |links| && (i < |links| ==> (links[i].parent, links[i].name) == path)
    ensures forall j | 0 <= j < i :: (links[j].parent, links[j].name) != path
  {
    if links == [] || (links[0].parent, links[0].name) == path then 0 else 1 + First(links[1..], path)
  }

  /** What the path names: the target of its first entry. */
  function Lookup(links: seq<Entry>, path: (Path, Path)): Option<u64>
  {
    if First(links, path) < |links| then Some(links[First(links, path)].target) else None
  }

  lemma {:induction false} FirstOfBoth(a: seq<Entry>, b: seq<Entry>, path: (Path, Path))
    ensures First(a + b, path) == if First(a, path) < |a| then First(a, path) else |a| + First(b, path)
  {
    if a == [] {
      assert a + b == b;
    } else {
      FirstOfBoth(a[1..], b, path);
      assert (a + b)[1..] == a[1..] + b;
    }
  }

  lemma LookupBoth(a: seq<Entry>, b: seq<Entry>, path: (Path, Path))
    ensures Lookup(a + b, path) == if Lookup(a, path).Some? then Lookup(a, path) else Lookup(b, path)
  {
    hide First;
    FirstOfBoth(a, b, path);
  }

  /** A new entry is found under its parent and name unless they are taken, and under nothing else. */
  lemma LookupAppend(links: seq<Entry>, e: Entry, path: (Path, Path))
    ensures Lookup(links + [e], path) ==
      if Lookup(links, path).Some? then Lookup(links, path)
      else if e.parent == path.0 && e.name == path.1 then Some(e.target) else None
    ensures Lookup(links, path).Some? ==> First(links + [e], path) == First(links, path)
  {
    FirstOfBoth(links, [e], path);
    LookupBoth(links, [e], path);
  }

  /** An entry taken out leaves all other paths alone, and its own path to the next entry of the same name. */
  lemma LookupWithout(links: seq<Entry>, k: nat, path: (Path, Path))
    requires k < |links|
    ensures Lookup(links[..k] + links[k + 1..], path) ==
      if First(links, path) == k then Lookup(links[k + 1..], path) else Lookup(links, path)
    ensures (links[k].parent, links[k].name) != path ==> First(links, path) != k
  {
    hide First, Lookup;
    var a, e, b := links[..k], links[k], links[k + 1..];
    assert links == (a + [e]) + b;
    FirstOfBoth(a + [e], b, path);
    FirstOfBoth(a, [e], path);
    LookupBoth(a + [e], b, path);
    LookupBoth(a, b, path);
    LookupAppend(a, e, path);
    LookupFirst(a, path);
  }

  lemma LookupFirst(links: seq<Entry>, path: (Path, Path))
    ensures Lookup(links, path).Some? <==> First(links, path) < |links|
  {
  }

  /** How many entries point at the object. */
  function Count(links: seq<Entry>, a: u64): nat
  {
    if links == [] then 0 else Count(links[..|links| - 1], a) + if links[|links| - 1].target == a then 1 else 0
  }

  lemma CountAppend(links: seq<Entry>, e: Entry, a: u64)
    ensures Count(links + [e], a) == Count(links, a) + if e.target == a then 1 else 0
  {
    assert (links + [e])[..|links|] == links;
  }

  lemma {:induction false} CountSplit(p: seq<Entry>, q: seq<Entry>, a: u64)
    ensures Count(p + q, a) == Count(p, a) + Count(q, a)
    decreases |q|
  {
    if q == [] {
      assert p + q == p;
    } else {
      var n := |q| - 1;
      CountSplit(p, q[..n], a);
      assert (p + q)[..|p + q| - 1] == p + q[..n] && (p + q)[|p + q| - 1] == q[n];
    }
  }

  lemma CountWithout(links: seq<Entry>, i: nat, a: u64)
    requires i < |links|
    ensures Count(links, a) == Count(links[..i] + links[i + 1..], a) + if links[i].target == a then 1 else 0
  {
    hide Count;
    assert links == links[..i] + [links[i]] + links[i + 1..];
    CountSplit(links[..i] + [links[i]], links[i + 1..], a);
    CountAppend(links[..i], links[i], a);
    CountSplit(links[..i], links[i + 1..], a);
  }

  lemma {:induction false} CountZero(links: seq<Entry>, a: u64)
    ensures Count(links, a) == 0 <==> forall i | 0 <= i < |links| :: links[i].target != a
  {
    if links != [] {
      var n := |links| - 1;
      CountZero(links[..n], a);
      assert forall i | 0 <= i < n :: links[..n][i] == links[i];
    }
  }

  /** The count a header stores: its message, or 1 without one. */
  function Stored(message: Option<u32>): u32
  {
    match message
    case None => 1
    case Some(c) => c
  }

  // ---- the protocol on values ----

  /** Entries of all groups, headers by address with their count messages, and the number of calls so far. */
  datatype State = State(links: seq<Entry>, headers: map<u64, Option<u32>>, calls: nat) {
    function CountOf(a: u64): u32 { if a in headers then Stored(headers[a]) else 0 }
  }

  datatype Call = NewDataset(path: Path, address: u64) | NewLink(link: Path, target: Path) | Remove(path: Path)

  /** What a call can run into. */
  datatype Outcome = Done | NoSuchPath | BadPath | NoParent | NotLinked | NotRead

  /** The groups there are and how they behave, each answer depending on the call, the entries and the group:
      whether a path can be looked up in it, whether all its leaves can be read, whether linkToParent succeeds for a
      name, and which entry an overflowing group then loses (none, if the number is beyond the entries). */
  datatype Groups = Groups(paths: set<Path>, opens: (nat, seq<Entry>, Path) -> bool, gathers: (nat, seq<Entry>, Path) -> bool,
                           hasRoom: (nat, seq<Entry>, Path, Path) -> bool, loses: (nat, seq<Entry>, Entry) -> nat) {
    predicate Present(parent: Path) { parent == [] || parent in paths }

    /** resolveObjectAddress: nothing is found below an unknown or unreadable parent. */
    function Resolved(s: State, path: Path): (i: nat)
      requires Rooted(path)
      ensures i <= |s.links|
    {
      if Opens(s, path) then First(s.links, ParsePath(path)) else |s.links|
    }

    /** The parent of the path is there and can be read. */
    predicate Opens(s: State, path: Path)
      requires Rooted(path)
    {
      var parent := ParsePath(path).0;
      Present(parent) && opens(s.calls, s.links, parent)
    }

    /** The object that the path resolves to. */
    function Finds(s: State, path: Path): Option<u64>
      requires Rooted(path)
    {
      if Resolved(s, path) < |s.links| then Some(s.links[Resolved(s, path)].target) else None
    }

    /** How linkToParent ends for the path. */
    function Linking(s: State, path: Path): (o: Outcome)
      requires Rooted(path)
      ensures o in {Done, NoParent, NotLinked}
    {
      var (parent, name) := ParsePath(path);
      if !Present(parent) then NoParent else if !hasRoom(s.calls, s.links, parent, name) then NotLinked else Done
    }

    /** The entry an accepted link displaces, if any. */
    function Lost(s: State, path: Path, a: u64): (k: nat)
      requires Rooted(path)
    {
      loses(s.calls, s.links, EntryAt(path, a))
    }

    /** Linking the object adds its entry and displaces none. */
    predicate Keeps(s: State, path: Path, a: u64)
      requires Rooted(path)
    {
      Linking(s, path) == Done && Lost(s, path, a) > |s.links|
    }

    /** A path to create at, and a header address that is not in use. */
    predicate Creates(s: State, path: Path, address: u64) { Rooted(path) && address !in s.headers }

    /** Both paths are well formed and the target is found. */
    predicate Reaches(s: State, link: Path, target: Path)
    {
      ValidLinkPath(link) && ValidLinkPath(target) && Resolved(s, target) < |s.links|
    }

    /** How unlinkFromParent ends for the path. */
    function Unlinking(s: State, path: Path): (o: Outcome)
      requires Rooted(path)
    {
      var p := ParsePath(path);
      if !Present(p.0) then NoParent
      else if !gathers(s.calls, s.links, p.0) then NotRead
      else if First(s.links, p) == |s.links| then NoSuchPath
      else Done
    }

    /** Removing the path finds something to remove. */
    predicate Removes(s: State, path: Path)
    {
      Rooted(path) && path != [SLASH] && Unlinking(s, path) == Done
    }

    /** The calls that leave some count above the number of entries. */
    predicate Leaks(s: State, c: Call)
    {
      match c
      case NewDataset(path, address) => Creates(s, path, address) && !Keeps(s, path, address)
      case NewLink(link, target) =>
        && Reaches(s, link, target)
        && var a := s.links[Resolved(s, target)].target;
        !Keeps(s, link, a) && (Linking(s, link) == NotLinked ==> s.CountOf(a) == 1)
      case Remove(_) => false
    }

    function After(s: State, c: Call): State
    {
      var t :=
        match c
        case NewDataset(path, address) => if Creates(s, path, address) then Created(s, path, address) else s
        case NewLink(link, target) => if Reaches(s, link, target) then Linked(s, s.links[Resolved(s, target)].target, link) else s
        case Remove(path) => if Removes(s, path) then Removed(s, First(s.links, ParsePath(path))) else s;
      t.(calls := s.calls + 1)
    }

    /** The header is written before it is linked, and stays when linking fails. */
    function Created(s: State, path: Path, address: u64): State
      requires Creates(s, path, address)
    {
      var made := s.(headers := s.headers[address := None]);
      if Linking(s, path) == Done then made.(links := Displaced(s.links + [EntryAt(path, address)], Lost(s, path, address)))
      else made
    }

    /** A refused entry is rolled back, except that a count of 1 is not written over the message. */
    function Linked(s: State, a: u64, path: Path): State
      requires Rooted(path)
    {
      var n := s.CountOf(a);
      var raised := s.headers[a := Some((n + 1) % 0x1_0000_0000)];
      match Linking(s, path)
      case NoParent => s.(headers := raised)
      case NotLinked => s.(headers := if n > 1 then s.headers[a := Some(n)] else raised)
      case _ => s.(links := Displaced(s.links + [EntryAt(path, a)], Lost(s, path, a)), headers := raised)
    }

    function Run(s: State, calls: seq<Call>): State
    {
      if calls == [] then s else After(Run(s, calls[..|calls| - 1]), calls[|calls| - 1])
    }
  }

  function EntryAt(path: Path, a: u64): Entry
    requires Rooted(path)
  {
    Entry(ParsePath(path).0, ParsePath(path).1, a)
  }

  /** The entries without the `k`-th, if there is one. */
  function Displaced(links: seq<Entry>, k: nat): seq<Entry>
  {
    if k < |links| then links[..k] + links[k + 1..] else links
  }

  /** The entry goes, and the count goes down; at 1 the object goes too. */
  function Removed(s: State, i: nat): State
    requires i < |s.links|
  {
    var a := s.links[i].target;
    var n := s.CountOf(a);
    s.(links := s.links[..i] + s.links[i + 1..], headers := if n > 1 then s.headers[a := Some(n - 1)] else s.headers - {a})
  }

  // ---- what paths resolve to ----

  /** Two paths for the same entry of the same group. */
  predicate SamePlace(p: Path, q: Path)
    requires Rooted(p) && Rooted(q)
  {
    ParsePath(p) == ParsePath(q)
  }

  predicate Free(links: seq<Entry>, path: Path)
    requires Rooted(path)
  {
    forall i | 0 <= i < |links| :: links[i].parent != ParsePath(path).0 || links[i].name != ParsePath(path).1
  }

  /** Every path for another place that opens before and after resolves to what it did. */
  ghost predicate OthersKeep(w: Groups, s: State, t: State, path: Path)
    requires Rooted(path)
  {
    forall q | Rooted(q) && !SamePlace(q, path) && w.Opens(s, q) && w.Opens(t, q) :: w.Finds(t, q) == w.Finds(s, q)
  }

  /** After the entry is added to a free place and displaces none, its path resolves to the object, and all others to
      what they did. */
  lemma AddedResolves(w: Groups, s: State, t: State, path: Path, a: u64)
    requires Rooted(path) && t.links == s.links + [EntryAt(path, a)]
    ensures Free(s.links, path) && w.Opens(t, path) ==> w.Finds(t, path) == Some(a)
    ensures OthersKeep(w, s, t, path)
  {
    hide First, ParsePath;
    LookupAppend(s.links, EntryAt(path, a), ParsePath(path));
    forall q | Rooted(q) && !SamePlace(q, path) && w.Opens(s, q) && w.Opens(t, q) ensures w.Finds(t, q) == w.Finds(s, q) {
      LookupAppend(s.links, EntryAt(path, a), ParsePath(q));
    }
  }

  /** The same for entries an overflowing group displaces nothing from; a link that is refused changes no path. */
  lemma LinkingResolves(w: Groups, s: State, t: State, path: Path, a: u64)
    requires Rooted(path)
    requires t.links == if w.Linking(s, path) == Done then Displaced(s.links + [EntryAt(path, a)], w.Lost(s, path, a)) else s.links
    ensures w.Keeps(s, path, a) && Free(s.links, path) && w.Opens(t, path) ==> w.Finds(t, path) == Some(a)
    ensures (w.Linking(s, path) == Done ==> w.Keeps(s, path, a)) ==> OthersKeep(w, s, t, path)
  {
    hide First, ParsePath, Free, SamePlace, Groups.Linking, Groups.Opens, Groups.Lost;
    if w.Keeps(s, path, a) {
      AddedResolves(w, s, t, path, a);
    }
  }

  /** After the first entry of the path is removed, the path resolves to nothing if no other entry had its place, and
      all other paths to what they did. */
  lemma RemovedResolves(w: Groups, s: State, t: State, path: Path)
    requires Rooted(path) && First(s.links, ParsePath(path)) < |s.links|
    requires var i := First(s.links, ParsePath(path)); t.links == s.links[..i] + s.links[i + 1..]
    ensures var i := First(s.links, ParsePath(path)); Free(s.links[i + 1..], path) ==> w.Finds(t, path) == None
    ensures OthersKeep(w, s, t, path)
  {
    hide First, ParsePath;
    var i := First(s.links, ParsePath(path));
    LookupWithout(s.links, i, ParsePath(path));
    forall q | Rooted(q) && !SamePlace(q, path) && w.Opens(s, q) && w.Opens(t, q) ensures w.Finds(t, q) == w.Finds(s, q) {
      LookupWithout(s.links, i, ParsePath(q));
    }
  }

  lemma SameLinks(w: Groups, s: State, t: State, path: Path)
    requires Rooted(path) && s.links == t.links
    ensures OthersKeep(w, s, t, path)
  {
    hide ParsePath, First;
  }

  // ---- what every call keeps ----

  /** No count is below the number of entries, none is 0 or above what the calls so far can reach, and no entry
      dangles. */
  ghost predicate Accounts(s: State)
  {
    && (forall i | 0 <= i < |s.links| :: s.links[i].target in s.headers)
    && (forall a | a in s.headers :: 1 <= s.CountOf(a) && Count(s.links, a) <= s.CountOf(a) <= 1 + s.calls)
  }

  /** Every count is the number of entries. */
  ghost predicate Exact(s: State)
  {
    forall a | a in s.headers :: s.CountOf(a) == Count(s.links, a)
  }

  /** One more increment fits 32 bits. */
  predicate Roomy(calls: nat) { calls < 0xFFFF_FFFE }

  /** Any call keeps the accounts; counts stay exact if and only if they were and the call does not leak. */
  lemma CallKeeps(w: Groups, s: State, c: Call)
    requires Accounts(s) && (c.Remove? || Roomy(s.calls))
    ensures Accounts(w.After(s, c))
    ensures Exact(w.After(s, c)) <==> Exact(s) && !w.Leaks(s, c)
  {
    hide Accounts, Exact, Count, Groups.Created, Groups.Linked, Removed, ParsePath, Groups.Keeps;
    Later(s, s);
    match c
    case NewDataset(path, address) =>
      if w.Creates(s, path, address) {
        CreatedKeeps(w, s, path, address);
      }
    case NewLink(link, target) =>
      if w.Reaches(s, link, target) {
        TargetKnown(s, w.Resolved(s, target));
        LinkedKeeps(w, s, s.links[w.Resolved(s, target)].target, link);
      }
    case Remove(path) =>
      if w.Removes(s, path) {
        var i := First(s.links, ParsePath(path));
        RemovedKeeps(s, i);
        Later(s, Removed(s, i));
      }
  }

  /** The call counter only bounds the counts. */
  lemma Later(s: State, t: State)
    requires Accounts(t) && t.calls == s.calls
    ensures Accounts(t.(calls := s.calls + 1))
    ensures Exact(t.(calls := s.calls + 1)) <==> Exact(t)
  {
    hide Count;
    var u := t.(calls := s.calls + 1);
    assert forall a :: u.CountOf(a) == t.CountOf(a);
  }

  lemma TargetKnown(s: State, i: nat)
    requires Accounts(s) && i < |s.links|
    ensures s.links[i].target in s.headers && 1 <= s.CountOf(s.links[i].target) <= 1 + s.calls
  {
    hide Count;
  }

  lemma CountsAppend(links: seq<Entry>, e: Entry)
    ensures forall a :: Count(links + [e], a) == Count(links, a) + if e.target == a then 1 else 0
  {
    forall a ensures Count(links + [e], a) == Count(links, a) + if e.target == a then 1 else 0 {
      CountAppend(links, e, a);
    }
  }

  /** A displaced entry leaves the count of its object one too high. */
  lemma DisplacedKeeps(s: State, k: nat)
    requires Accounts(s)
    ensures Accounts(s.(links := Displaced(s.links, k)))
    ensures Exact(s.(links := Displaced(s.links, k))) <==> Exact(s) && k >= |s.links|
  {
    hide Count;
    var t := s.(links := Displaced(s.links, k));
    forall b ensures t.CountOf(b) == s.CountOf(b) {
    }
    if k < |s.links| {
      forall b ensures Count(s.links, b) == Count(t.links, b) + if s.links[k].target == b then 1 else 0 {
        CountWithout(s.links, k, b);
      }
      forall i | 0 <= i < |t.links| ensures t.links[i] == s.links[if i < k then i else i + 1] {
      }
      assert s.links[k].target in t.headers;
    }
  }

  /** A new object starts at count 1; without its entry, or when that displaces one, some count is one too high. */
  lemma CreatedKeeps(w: Groups, s: State, path: Path, address: u64)
    requires Accounts(s) && Roomy(s.calls) && w.Creates(s, path, address)
    ensures Accounts(w.Created(s, path, address).(calls := s.calls + 1))
    ensures Exact(w.Created(s, path, address).(calls := s.calls + 1)) <==> Exact(s) && w.Keeps(s, path, address)
  {
    hide Count, ParsePath, Groups.Linking, Groups.Lost, Displaced;
    var bare := State(s.links, s.headers[address := None], s.calls);
    var full := bare.(links := s.links + [EntryAt(path, address)]);
    CountZero(s.links, address);
    CountsAppend(s.links, EntryAt(path, address));
    forall a | a in s.headers ensures bare.CountOf(a) == full.CountOf(a) == s.CountOf(a) && Count(full.links, a) == Count(s.links, a) {
    }
    assert bare.CountOf(address) == 1 && full.CountOf(address) == 1;
    Later(s, bare);
    if w.Linking(s, path) == Done {
      DisplacedKeeps(full, w.Lost(s, path, address));
      Later(s, full.(links := Displaced(full.links, w.Lost(s, path, address))));
    }
  }

  /** What raising one count by `n` and adding `k` entries for it does to the accounts. */
  lemma Raised(s: State, t: State, a: u64, n: nat, k: nat)
    requires Accounts(s) && a in s.headers && t.calls == s.calls + 1 && t.headers.Keys == s.headers.Keys && k <= n <= 1
    requires forall i | 0 <= i < |t.links| :: t.links[i].target in t.headers
    requires t.CountOf(a) == s.CountOf(a) + n && Count(t.links, a) == Count(s.links, a) + k
    requires forall b | b in s.headers && b != a :: t.CountOf(b) == s.CountOf(b) && Count(t.links, b) == Count(s.links, b)
    ensures Accounts(t)
    ensures Exact(t) <==> (Exact(s) && n == k)
  {
    hide Count, State.CountOf;
  }

  /** The increment alone, and with its entry. */
  lemma RaisedOnly(s: State, a: u64, e: Entry)
    requires Accounts(s) && Roomy(s.calls) && a in s.headers && e.target == a
    ensures var raised := State(s.links, s.headers[a := Some(s.CountOf(a) + 1)], s.calls + 1);
      && Accounts(raised) && !Exact(raised)
      && Accounts(raised.(links := s.links + [e])) && (Exact(raised.(links := s.links + [e])) <==> Exact(s))
    ensures var same := State(s.links, s.headers[a := Some(s.CountOf(a))], s.calls + 1);
      Accounts(same) && (Exact(same) <==> Exact(s))
  {
    hide Count, Accounts, Exact;
    TargetRange(s, a);
    var raised := State(s.links, s.headers[a := Some(s.CountOf(a) + 1)], s.calls + 1);
    CountsAppend(s.links, e);
    Raised(s, raised.(links := s.links + [e]), a, 1, 1);
    Raised(s, raised, a, 1, 0);
    Raised(s, raised.(headers := s.headers[a := Some(s.CountOf(a))]), a, 0, 0);
  }

  lemma TargetRange(s: State, a: u64)
    requires Accounts(s) && a in s.headers
    ensures 1 <= s.CountOf(a) <= 1 + s.calls
    ensures forall i | 0 <= i < |s.links| :: s.links[i].target in s.headers
  {
    hide Count;
  }

  /** The increment and the entry: together they keep every difference; a missing parent, a refused entry at count 1,
      and a displaced entry leave one more on some count. */
  lemma LinkedKeeps(w: Groups, s: State, a: u64, path: Path)
    requires Accounts(s) && Roomy(s.calls) && Rooted(path) && a in s.headers
    ensures Accounts(w.Linked(s, a, path).(calls := s.calls + 1))
    ensures Exact(w.Linked(s, a, path).(calls := s.calls + 1)) <==>
      (Exact(s) && (w.Keeps(s, path, a) || (w.Linking(s, path) == NotLinked && s.CountOf(a) != 1)))
  {
    hide Count, ParsePath, Groups.Linking, Exact, Accounts, Groups.Lost, Displaced, State.CountOf;
    var n := s.CountOf(a);
    TargetRange(s, a);
    RaisedOnly(s, a, EntryAt(path, a));
    if w.Linking(s, path) == Done {
      var t := State(s.links + [EntryAt(path, a)], s.headers[a := Some(n + 1)], s.calls + 1);
      DisplacedKeeps(t, w.Lost(s, path, a));
    }
  }

  /** One entry and one count less, or the last entry and the object gone together. */
  lemma RemovedKeeps(s: State, i: nat)
    requires Accounts(s) && i < |s.links|
    ensures Accounts(Removed(s, i)) && Removed(s, i).calls == s.calls && (Exact(Removed(s, i)) <==> Exact(s))
    ensures s.links[i].target !in Removed(s, i).headers ==> Count(Removed(s, i).links, s.links[i].target) == 0
  {
    hide Count;
    var a, t := s.links[i].target, Removed(s, i);
    forall b ensures Count(s.links, b) == Count(t.links, b) + if a == b then 1 else 0 {
      CountWithout(s.links, i, b);
    }
    CountZero(t.links, a);
    forall k | 0 <= k < |t.links| ensures t.links[k] == s.links[if k < i then k else k + 1] {
    }
    forall b | b in s.headers && b != a ensures b in t.headers && t.CountOf(b) == s.CountOf(b) {
    }
  }

  /** A hard link outlives the path it was made from: link an object under a free path, remove the path it was found
      by, and the new path still resolves to it, at the count it had. */
  lemma LinkOutlives(w: Groups, s: State, link: Path, target: Path)
    requires Accounts(s) && Roomy(s.calls) && w.Reaches(s, link, target) && Free(s.links, link) && !SamePlace(link, target)
    requires w.Keeps(s, link, w.Finds(s, target).value) && w.Removes(w.After(s, NewLink(link, target)), target)
    ensures var a, t := w.Finds(s, target).value, w.After(w.After(s, NewLink(link, target)), Remove(target));
      && a in t.headers && t.CountOf(a) == s.CountOf(a)
      && (w.Opens(t, link) ==> w.Finds(t, link) == Some(a))
  {
    hide Accounts, ParsePath, First, Count, Groups.Opens, Groups.Keeps, Groups.Unlinking;
    var i := w.Resolved(s, target);
    var a := s.links[i].target;
    TargetKnown(s, i);
    LinkedAdds(w, s, a, link);
    var u := w.After(s, NewLink(link, target));
    FirstOfBoth(s.links, [EntryAt(link, a)], ParsePath(target));
    LookupAppend(s.links, EntryAt(link, a), ParsePath(link));
    LookupWithout(u.links, i, ParsePath(link));
  }

  lemma LinkedAdds(w: Groups, s: State, a: u64, path: Path)
    requires Rooted(path) && w.Keeps(s, path, a) && 1 <= s.CountOf(a) < 0xFFFF_FFFF
    ensures w.Linked(s, a, path) == s.(links := s.links + [EntryAt(path, a)], headers := s.headers[a := Some(s.CountOf(a) + 1)])
  {
    hide ParsePath;
  }

  /** No call leaks in the state it meets. */
  ghost predicate LeakFree(w: Groups, s: State, calls: seq<Call>)
  {
    forall k | 0 <= k < |calls| :: !w.Leaks(w.Run(s, calls[..k]), calls[k])
  }

  lemma LeakFreeStep(w: Groups, s: State, calls: seq<Call>)
    requires calls != []
    ensures var n := |calls| - 1;
      LeakFree(w, s, calls) <==> (LeakFree(w, s, calls[..n]) && !w.Leaks(w.Run(s, calls[..n]), calls[n]))
  {
    hide Groups.Leaks, Groups.Run;
    var n := |calls| - 1;
    assert forall k | 0 <= k < n :: calls[..n][..k] == calls[..k] && calls[..n][k] == calls[k];
  }

  /** Over a run: the accounts are kept, and counts are exact if and only if no call leaked. */
  lemma {:induction false} RunKeeps(w: Groups, s: State, calls: seq<Call>)
    requires Accounts(s) && Exact(s) && s.calls + |calls| < 0xFFFF_FFFE
    ensures Accounts(w.Run(s, calls)) && w.Run(s, calls).calls == s.calls + |calls|
    ensures Exact(w.Run(s, calls)) <==> LeakFree(w, s, calls)
  {
    hide Accounts, Exact, Groups.Leaks, LeakFree, Groups.Created, Groups.Linked, Removed, Groups.Creates, Groups.Reaches, Groups.Removes,
         Groups.Resolved, ParsePath, First;
    if calls == [] {
      NothingLeaks(w, s);
    } else {
      var n := |calls| - 1;
      RunKeeps(w, s, calls[..n]);
      CallKeeps(w, w.Run(s, calls[..n]), calls[n]);
      LeakFreeStep(w, s, calls);
    }
  }

  lemma NothingLeaks(w: Groups, s: State)
    ensures LeakFree(w, s, [])
  {
  }

  // ---- the calls ----

  class LinkedFile {
    const groups: Groups
    var links: seq<Entry>
    var headers: map<u64, Option<u32>>
    var calls: nat

    ghost function Now(): State
      reads this
    {
      State(links, headers, calls)
    }

    ghost predicate Valid()
      reads this
    {
      Accounts(Now())
    }

    constructor (groups: Groups)
      ensures Valid() && Now() == State([], map[], 0) && this.groups == groups
    {
      this.groups := groups;
      links, headers, calls := [], map[], 0;
    }

    /** resolveObjectAddress: the first entry of the name in its parent. */
    method Resolve(path: Path) returns (i: nat)
      requires Rooted(path)
      ensures i == groups.Resolved(Now(), path) && i <= |links|
      ensures i < |links| <==>
        && (ParsePath(path).0 == [] || ParsePath(path).0 in groups.paths) && groups.opens(calls, links, ParsePath(path).0)
        && !Free(links, path)
      ensures i < |links| ==> links[i].parent == ParsePath(path).0 && links[i].name == ParsePath(path).1 && Free(links[..i], path)
    {
      hide ParsePath;
      var (parent, name) := ParsePath(path);
      if parent != [] && parent !in groups.paths {
        return |links|;
      }
      if !groups.opens(calls, links, parent) {
        return |links|;
      }
      i := Find(parent, name);
    }

    /** Index of the first entry of the name. */
    method Find(parent: Path, name: Path) returns (i: nat)
      ensures i == First(links, (parent, name))
    {
      i := 0;
      while i < |links|
        invariant i <= |links| && First(links, (parent, name)) == i + First(links[i..], (parent, name))
      {
        if links[i].parent == parent && links[i].name == name {
          return;
        }
        i := i + 1;
      }
    }

    /** writeV2RefCount: a message is written only for counts above 1; otherwise the header goes back as it is. */
    method WriteRefCount(a: u64, count: u32)
      requires a in headers
      modifies this`headers
      ensures headers == old(headers)[a := if count > 1 then Some(count) else old(headers)[a]]
    {
      var message := headers[a];
      if count > 1 {
        message := Some(count);
      }
      headers := headers[a := message];
    }

    /** linkToParent, as far as the entries of all groups show it. */
    method AddEntry(path: Path, a: u64) returns (outcome: Outcome)
      requires Rooted(path)
      modifies this`links
      ensures outcome == old(groups.Linking(Now(), path))
      ensures outcome == NoParent <==> ParsePath(path).0 != [] && ParsePath(path).0 !in groups.paths
      ensures outcome == Done ==> old(groups.hasRoom(calls, links, ParsePath(path).0, ParsePath(path).1))
      ensures outcome == NotLinked ==> !old(groups.hasRoom(calls, links, ParsePath(path).0, ParsePath(path).1))
      ensures links == if outcome == Done then Displaced(old(links) + [EntryAt(path, a)], groups.loses(calls, old(links), EntryAt(path, a)))
        else old(links)
    {
      hide ParsePath;
      var (parent, name) := ParsePath(path);
      if parent != [] && parent !in groups.paths {
        return NoParent;
      }
      if !groups.hasRoom(calls, links, parent, name) {
        return NotLinked;
      }
      var lost := groups.loses(calls, links, Entry(parent, name, a));
      links := links + [Entry(parent, name, a)];
      if lost < |links| {
        links := links[..lost] + links[lost + 1..];
      }
      outcome := Done;
    }

    /** Creating a dataset: a new header at an address not in use, then its entry. */
    method CreateDataset(path: Path, address: u64) returns (outcome: Outcome)
      requires Valid() && address !in headers && Roomy(calls)
      modifies this
      ensures Valid() && Now() == groups.After(old(Now()), NewDataset(path, address))
      ensures outcome == BadPath <==> !Rooted(path)
      ensures Rooted(path) ==> outcome == groups.Linking(old(Now()), path)
      ensures Exact(Now()) <==> old(Exact(Now())) && (Rooted(path) ==> groups.Keeps(old(Now()), path, address))
      ensures Rooted(path) && groups.Keeps(old(Now()), path, address) && Free(old(links), path) && groups.Opens(Now(), path) ==>
        groups.Finds(Now(), path) == Some(address)
      ensures Rooted(path) && (outcome == Done ==> groups.Keeps(old(Now()), path, address)) ==>
        OthersKeep(groups, old(Now()), Now(), path)
    {
      hide Accounts, Exact, ParsePath, Groups.Linking, Displaced, Groups.Keeps, Groups.Opens, Groups.Finds, Free, OthersKeep;
      CallKeeps(groups, Now(), NewDataset(path, address));
      if path == [] || path[0] != SLASH {
        calls := calls + 1;
        return BadPath;
      }
      headers := headers[address := None];
      LinkingSame(groups, old(Now()), Now(), path);
      outcome := AddEntry(path, address);
      calls := calls + 1;
      LinkingResolves(groups, old(Now()), Now(), path, address);
    }

    /** CreateHardLink: the count goes up before the entry is added.  A missing parent leaves the increment behind; a
        refused entry is rolled back, except that a count of 1 is not written back over the message. */
    method CreateHardLink(linkPath: Path, targetPath: Path) returns (outcome: Outcome)
      requires Valid() && Roomy(calls)
      modifies this
      ensures Valid() && Now() == groups.After(old(Now()), NewLink(linkPath, targetPath))
      ensures outcome == BadPath <==> !ValidLinkPath(linkPath) || !ValidLinkPath(targetPath)
      ensures outcome == NoSuchPath <==>
              (ValidLinkPath(linkPath) && ValidLinkPath(targetPath) && groups.Resolved(old(Now()), targetPath) == |old(links)|)
      ensures groups.Reaches(old(Now()), linkPath, targetPath) ==> outcome == groups.Linking(old(Now()), linkPath)
      ensures Exact(Now()) <==> old(Exact(Now())) && !groups.Leaks(old(Now()), NewLink(linkPath, targetPath))
      ensures groups.Reaches(old(Now()), linkPath, targetPath) ==>
        && groups.Finds(old(Now()), targetPath).Some?
        && var a := groups.Finds(old(Now()), targetPath).value;
        && (groups.Keeps(old(Now()), linkPath, a) && Free(old(links), linkPath) && groups.Opens(Now(), linkPath) ==>
              groups.Finds(Now(), linkPath) == Some(a))
        && ((outcome == Done ==> groups.Keeps(old(Now()), linkPath, a)) ==> OthersKeep(groups, old(Now()), Now(), linkPath))
    {
      hide Accounts, Exact, ParsePath, Groups.Linking, Displaced, Groups.Keeps, Groups.Opens, Free, OthersKeep;
      CallKeeps(groups, Now(), NewLink(linkPath, targetPath));
      if !ValidLinkPath(linkPath) || !ValidLinkPath(targetPath) {
        calls := calls + 1;
        return BadPath;
      }
      var i := Resolve(targetPath);
      if i == |links| {
        calls := calls + 1;
        return NoSuchPath;
      }
      TargetKnown(Now(), i);
      outcome := LinkTo(links[i].target, linkPath);
      calls := calls + 1;
      LinkingResolves(groups, old(Now()), Now(), linkPath, old(links[i].target));
    }

    /** The part of CreateHardLink after the target is resolved. */
    method LinkTo(a: u64, linkPath: Path) returns (outcome: Outcome)
      requires Rooted(linkPath) && a in headers && 1 <= Stored(headers[a]) < 0xFFFF_FFFF
      modifies this`links, this`headers
      ensures Now() == groups.Linked(old(Now()), a, linkPath) && outcome == groups.Linking(old(Now()), linkPath)
      ensures groups.Keeps(old(Now()), linkPath, a) && Free(old(links), linkPath) && groups.Opens(Now(), linkPath) ==>
        groups.Finds(Now(), linkPath) == Some(a)
      ensures (outcome == Done ==> groups.Keeps(old(Now()), linkPath, a)) ==> OthersKeep(groups, old(Now()), Now(), linkPath)
    {
      hide ParsePath, Displaced, Groups.Linking, Groups.Keeps, Groups.Opens, Groups.Finds, Free, OthersKeep;
      var count := Stored(headers[a]);
      WriteRefCount(a, count + 1);
      LinkingSame(groups, old(Now()), Now(), linkPath);
      outcome := AddEntry(linkPath, a);
      if outcome == NotLinked {
        WriteRefCount(a, count);
        assert headers == old(headers)[a := Some(if count > 1 then count else count + 1)];
      }
      LinkingResolves(groups, old(Now()), Now(), linkPath, a);
    }

    /** Delete of a dataset: the entry goes first, then the count; the object is freed when the count reaches 0, and
        then no entry names it any more. */
    method Delete(path: Path) returns (outcome: Outcome, freed: Option<u64>)
      requires Valid()
      modifies this
      ensures Valid() && Now() == groups.After(old(Now()), Remove(path))
      ensures outcome == BadPath <==> !Rooted(path) || path == [SLASH]
      ensures outcome != BadPath ==> outcome == groups.Unlinking(old(Now()), path)
      ensures outcome == NoParent ==> ParsePath(path).0 != [] && ParsePath(path).0 !in groups.paths
      ensures outcome == NotRead ==> !old(groups.gathers(calls, links, ParsePath(path).0))
      ensures outcome == NoSuchPath ==> old(groups.gathers(calls, links, ParsePath(path).0)) && Free(old(links), path)
      ensures outcome == Done ==> old(groups.gathers(calls, links, ParsePath(path).0)) && !Free(old(links), path)
      ensures freed.Some? <==> outcome == Done && old(Now().CountOf(links[First(links, ParsePath(path))].target)) == 1
      ensures freed.Some? ==> freed.value == old(links[First(links, ParsePath(path))].target) && Count(links, freed.value) == 0
      ensures Exact(Now()) <==> old(Exact(Now()))
      ensures Rooted(path) ==> OthersKeep(groups, old(Now()), Now(), path)
      ensures outcome == Done ==> var i := First(old(links), ParsePath(path));
        i < |old(links)| && (Free(old(links)[i + 1..], path) ==> groups.Finds(Now(), path) == None)
    {
      hide Accounts, Exact, Count, ParsePath, Groups.Finds, OthersKeep, First;
      freed := None;
      CallKeeps(groups, Now(), Remove(path));
      calls := calls + 1;
      if Rooted(path) {
        SameLinks(groups, old(Now()), Now(), path);
      }
      if path == [] || path[0] != SLASH || path == [SLASH] {
        return BadPath, freed;
      }
      var (parent, name) := ParsePath(path);
      if parent != [] && parent !in groups.paths {
        return NoParent, freed;
      }
      if !groups.gathers(calls - 1, links, parent) {
        return NotRead, freed;
      }
      var i := Find(parent, name);
      if i == |links| {
        return NoSuchPath, freed;
      }
      var a := links[i].target;
      RemovedKeeps(old(Now()), i);
      TargetKnown(old(Now()), i);
      links := links[..i] + links[i + 1..];
      var count := Stored(headers[a]);
      var left: u32 := if count > 0 then count - 1 else 0;
      if left > 0 {
        headers := headers[a := Some(left)];
        outcome := Done;
      } else {
        headers := headers - {a};
        outcome, freed := Done, Some(a);
      }
      RemovedResolves(groups, old(Now()), Now(), path);
    }
  }

  /** Whether a link is accepted depends on calls and entries only. */
  lemma LinkingSame(w: Groups, s: State, t: State, path: Path)
    requires Rooted(path) && s.links == t.links && s.calls == t.calls
    ensures w.Linking(s, path) == w.Linking(t, path)
  {
  }

  // ---- whole runs ----

  /** Every new dataset gets a header address that is not in use when it is created: one never used before, or one
      freed by a deletion. */
  ghost predicate Sound(w: Groups, calls: seq<Call>)
  {
    forall k | 0 <= k < |calls| && calls[k].NewDataset? :: calls[k].address !in w.Run(State([], map[], 0), calls[..k]).headers
  }

  /** Any run of calls: counts never fall below the entries, and they are equal if and only if no call leaked. */
  method Run(groups: Groups, calls: seq<Call>) returns (f: LinkedFile)
    requires |calls| < 0xFFFF_FFFE && Sound(groups, calls)
    ensures f.Valid() && forall a | a in f.headers :: Count(f.links, a) <= Stored(f.headers[a])
    ensures (forall a | a in f.headers :: Count(f.links, a) == Stored(f.headers[a])) <==>
            LeakFree(groups, State([], map[], 0), calls)
  {
    hide Count, ParsePath, Groups.After, Groups.Leaks, LeakFree, Groups.Keeps, Groups.Linking, Groups.Unlinking, Groups.Resolved;
    f := new LinkedFile(groups);
    ghost var s := f.Now();
    var i := 0;
    while i < |calls|
      invariant i <= |calls| && f.Valid() && fresh(f) && f.groups == groups && f.calls == i
      invariant f.Now() == groups.Run(s, calls[..i])
    {
      RunKeeps(groups, s, calls[..i + 1]);
      assert calls[..i + 1][..i] == calls[..i];
      match calls[i] {
        case NewDataset(path, address) => var _ := f.CreateDataset(path, address);
        case NewLink(link, target) => var _ := f.CreateHardLink(link, target);
        case Remove(path) => var _, _ := f.Delete(path);
      }
      i := i + 1;
    }
    assert calls[..i] == calls;
    RunKeeps(groups, s, calls);
    forall a | a in f.headers ensures f.Now().CountOf(a) == Stored(f.headers[a]) {
    }
  }
}
