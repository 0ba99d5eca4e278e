/** `get_queue` and the pop in `main` (src/main.rs:95-148).

    The page is scanned for rows with the row pattern. Each row is coerced into
    a `Host`, and the first row whose user count or load does not parse stops
    the program. The host popped first from the max-heap is the least loaded
    one. The heap is modelled by its contents, a sequence of hosts: which of
    several equally loaded hosts comes out first is left open, as
    `BinaryHeap` leaves it open. */
module Queue {
  import opened Outcomes
  import opened Chars
  import opened Numbers
  import opened Rows
  import opened Hosts

  /** Why the program stops without printing a host. */
  datatype Failure =
    | UsersUnparsable  // "Could not parse user count" (src/main.rs:118-122)
    | LoadUnparsable   // "could not parse load" (src/main.rs:124-128)
    | EmptyQueue       // `unwrap` on the `None` an empty heap pops (src/main.rs:148)

  // ---------------------------------------------------------------------
  // Finding the rows: `captures_iter` (src/main.rs:114)

  /** One match of a pattern: where it starts and ends, and its pieces. */
  datatype Match = Match(start: nat, end: nat, pieces: seq<Piece>)

  /** No match of `pat` starts anywhere in `[a, b)`. */
  predicate NoMatchIn(s: string, pat: seq<Token>, a: nat, b: nat) {
    b <= |s| && forall p :: a <= p < b ==> MatchTokens(s, p, pat).None?
  }

  predicate IsMatch(s: string, pat: seq<Token>, m: Match) {
    m.start <= |s| && MatchTokens(s, m.start, pat) == Some((m.pieces, m.end))
  }

  /** `ms` are the leftmost, non-overlapping matches of `pat` in `s` from `i`
      on: each starts at the first index, at or after the end of the previous
      one, where a match starts; after the last one no match starts. */
  predicate Leftmost(s: string, pat: seq<Token>, i: nat, ms: seq<Match>)
    decreases |ms|
  {
    if |ms| == 0 then NoMatchIn(s, pat, i, |s|)
    else
      && IsMatch(s, pat, ms[0])
      && i <= ms[0].start < ms[0].end
      && NoMatchIn(s, pat, i, ms[0].start)
      && Leftmost(s, pat, ms[0].end, ms[1..])
  }

  /** A match at `i` itself heads the matches from `i`. */
  lemma LeftmostCons(s: string, pat: seq<Token>, m: Match, ms: seq<Match>)
    requires IsMatch(s, pat, m) && m.start < m.end && Leftmost(s, pat, m.end, ms)
    ensures Leftmost(s, pat, m.start, [m] + ms)
  {
    assert ([m] + ms)[1..] == ms;
  }

  /** Where no match starts at `i`, the matches from `i` are those from `i + 1`. */
  lemma LeftmostSkip(s: string, pat: seq<Token>, i: nat, ms: seq<Match>)
    requires i < |s| && MatchTokens(s, i, pat).None? && Leftmost(s, pat, i + 1, ms)
    ensures Leftmost(s, pat, i, ms)
  {
  }

  /** Each of the leftmost matches from `i` is a match at or after `i`. */
  lemma {:induction false} LeftmostMatches(s: string, pat: seq<Token>, i: nat, ms: seq<Match>)
    requires Leftmost(s, pat, i, ms)
    ensures forall k :: 0 <= k < |ms| ==> IsMatch(s, pat, ms[k]) && i <= ms[k].start
    decreases |ms|
  {
    if |ms| > 0 {
      LeftmostMatches(s, pat, ms[0].end, ms[1..]);
      assert forall k :: 1 <= k < |ms| ==> ms[k] == ms[1..][k - 1];
    }
  }

  /** `captures_iter` from index `i` on, for a pattern that opens with `<`
      and so never matches the empty text. */
  function Scan(s: string, pat: seq<Token>, i: nat): (ms: seq<Match>)
    requires i <= |s| && StartsWithTag(pat)
    ensures Leftmost(s, pat, i, ms)
    decreases |s| - i
  {
    if i == |s| then []
    else match MatchTokens(s, i, pat)
      case Some((ps, e)) =>
        MatchNeedsTag(s, pat, i);
        var rest := Scan(s, pat, e);
        LeftmostCons(s, pat, Match(i, e, ps), rest);
        [Match(i, e, ps)] + rest
      case None =>
        var rest := Scan(s, pat, i + 1);
        LeftmostSkip(s, pat, i, rest);
        rest
  }

  /** There is only one leftmost, non-overlapping sequence of matches. */
  lemma {:induction false} LeftmostUnique(s: string, pat: seq<Token>, i: nat, ms: seq<Match>, ns: seq<Match>)
    requires Leftmost(s, pat, i, ms) && Leftmost(s, pat, i, ns)
    ensures ms == ns
    decreases |ms|
  {
    if |ms| > 0 && |ns| > 0 {
      assert ms[0].start == ns[0].start;
      assert ms[0] == ns[0];
      LeftmostUnique(s, pat, ms[0].end, ms[1..], ns[1..]);
      assert ms == [ms[0]] + ms[1..] && ns == [ns[0]] + ns[1..];
    }
  }

  /** So the scan is exactly the leftmost, non-overlapping matches. */
  lemma ScanIsLeftmost(s: string, pat: seq<Token>, i: nat, ms: seq<Match>)
    requires i <= |s| && StartsWithTag(pat)
    ensures Scan(s, pat, i) == ms <==> Leftmost(s, pat, i, ms)
  {
    if Leftmost(s, pat, i, ms) {
      LeftmostUnique(s, pat, i, Scan(s, pat, i), ms);
    }
  }

  /** Text without `<` holds no row. */
  predicate NoTag(t: string) {
    forall k :: 0 <= k < |t| ==> t[k] != '<'
  }

  /** Text without `<` in front of the matches changes nothing. */
  lemma {:induction false} LeftmostSkipsText(s: string, pat: seq<Token>, i: nat, j: nat, ms: seq<Match>)
    requires i <= j <= |s| && StartsWithTag(pat) && Leftmost(s, pat, j, ms)
    requires forall p :: i <= p < j ==> s[p] != '<'
    ensures Leftmost(s, pat, i, ms)
    decreases j - i
  {
    if i < j {
      LeftmostSkipsText(s, pat, i + 1, j, ms);
      MatchNeedsTag(s, pat, i);
      LeftmostSkip(s, pat, i, ms);
    }
  }

  lemma ScanSkipsText(s: string, pat: seq<Token>, i: nat, j: nat)
    requires i <= j <= |s| && StartsWithTag(pat)
    requires forall p :: i <= p < j ==> s[p] != '<'
    ensures Scan(s, pat, i) == Scan(s, pat, j)
  {
    LeftmostSkipsText(s, pat, i, j, Scan(s, pat, j));
    ScanIsLeftmost(s, pat, i, Scan(s, pat, j));
  }

  /** The rows of the page from index `i` on. */
  function RowsFrom(s: string, i: nat): (ms: seq<Match>)
    requires i <= |s|
    ensures Leftmost(s, RowPattern(), i, ms)
    ensures forall k :: 0 <= k < |ms| ==> FitsAll(RowPattern(), ms[k].pieces)
  {
    RowStartsWithTag();
    var ms := Scan(s, RowPattern(), i);
    LeftmostMatches(s, RowPattern(), i, ms);
    ms
  }

  /** The captured fields of each match, in order. */
  function CapturesOf(pat: seq<Token>, ms: seq<Match>): (fs: seq<seq<string>>)
    requires forall k :: 0 <= k < |ms| ==> FitsAll(pat, ms[k].pieces)
    ensures |fs| == |ms|
    ensures forall k :: 0 <= k < |ms| ==> fs[k] == Captures(pat, ms[k].pieces)
    decreases |ms|
  {
    if |ms| == 0 then []
    else
      assert forall k :: 1 <= k < |ms| ==> ms[k] == ms[1..][k - 1];
      [Captures(pat, ms[0].pieces)] + CapturesOf(pat, ms[1..])
  }

  /** Each row has five fields; the host name and the uptime are in their
      classes. */
  lemma RowFields(ms: seq<Match>)
    requires forall k :: 0 <= k < |ms| ==> FitsAll(RowPattern(), ms[k].pieces)
    ensures forall k :: 0 <= k < |ms| ==>
      var f := CapturesOf(RowPattern(), ms)[k];
      |f| == 5 && FieldOk(f[0], NameClass) && FieldOk(f[2], UptimeClass)
  {
    var fs := CapturesOf(RowPattern(), ms);
    forall k | 0 <= k < |ms|
      ensures |fs[k]| == 5 && FieldOk(fs[k][0], NameClass) && FieldOk(fs[k][2], UptimeClass)
    {
      RowNameAndUptime(ms[k].pieces);
    }
  }

  // ---------------------------------------------------------------------
  // Coercing a row (src/main.rs:115-138)

  /** The body of the loop for one row: the host name and uptime are copied,
      `up` is whether the status reads exactly "up", the user count is read
      before the load, and either failing to parse stops the program. */
  function ToHost(host: string, ud: string, uptime: string, users: string, load: string): (r: Result<Host, Failure>)
    ensures r.Ok? <==> ParseUsers(users).Some? && ParseLoad(load).Some?
    ensures r == Err(UsersUnparsable) <==> ParseUsers(users).None?
    ensures r == Err(LoadUnparsable) <==> ParseUsers(users).Some? && ParseLoad(load).None?
    ensures r.Ok? ==> r.value.host == host && r.value.uptime == uptime
    ensures r.Ok? ==> (r.value.up <==> ud == "up")
    ensures r.Ok? ==> Some(r.value.users) == ParseUsers(users) && Some(r.value.load) == ParseLoad(load)
  {
    match ParseUsers(users)
    case None => Err(UsersUnparsable)
    case Some(n) =>
      match ParseLoad(load)
      case None => Err(LoadUnparsable)
      case Some(x) => Ok(Host(host, ud == "up", uptime, n, x))
  }

  /** How the page spells a host's status. */
  function StatusText(up: bool): (t: string)
    ensures (t == "up") == up
  {
    if up then "up" else "down"
  }

  /** A host written out as the page writes it coerces back to itself. */
  lemma ToHostRoundTrip(h: Host, w: nat, f: nat, m: nat)
    requires f < Pow10(m) && h.load == w as real + f as real / Pow10(m) as real
    ensures ToHost(h.host, StatusText(h.up), h.uptime, ShowNat(h.users), ShowNat(w) + ['.'] + PadDigits(f, m)) == Ok(h)
  {
    ParseUsersRoundTrip(h.users);
    ParseLoadFraction(w, f, m);
    var load := ShowNat(w) + ['.'] + PadDigits(f, m);
    assert ParseLoad(load) == Some(h.load);
    var r := ToHost(h.host, StatusText(h.up), h.uptime, ShowNat(h.users), load);
    assert r.Ok?;
    assert r.value.up == h.up;
  }

  /** A row as the page shows it, whether the host is up or down. */
  lemma ToHostExample(ud: string)
    ensures ToHost("zeus", ud, "3+01:02", "12", "0.42") == Ok(Host("zeus", ud == "up", "3+01:02", 12, 0.42))
  {
    ParseUsersRoundTrip(12);
    assert ShowNat(12) == "12";
    ParseLoadSplit("0", "42");
    assert "0" + ['.'] + "42" == "0.42";
  }

  /** A load with two dots stops the program. */
  lemma ToHostBadLoad()
    ensures ToHost("zeus", "up", "3+01:02", "12", "1.2.3") == Err(LoadUnparsable)
  {
    ParseLoadRejects();
  }

  /** An Arabic-Indic digit is a `\d`, so the row is matched, but
      `usize::from_str` rejects it, before the load is looked at. */
  lemma ToHostBadUsers()
    ensures ToHost("zeus", "up", "3+01:02", "\U{0661}", "1.2.3") == Err(UsersUnparsable)
  {
  }

  /** One row, coerced from its captured fields. */
  function CoerceRow(f: seq<string>): (r: Result<Host, Failure>)
    requires |f| == 5
    ensures r.Ok? <==> ParseUsers(f[3]).Some? && ParseLoad(f[4]).Some?
    ensures r.Ok? ==> r.value.host == f[0] && r.value.uptime == f[2] && (r.value.up <==> f[1] == "up")
  {
    ToHost(f[0], f[1], f[2], f[3], f[4])
  }

  /** All rows coerced in page order, stopping at the first failure. */
  function CoerceAll(fs: seq<seq<string>>): (r: Result<seq<Host>, Failure>)
    requires forall k :: 0 <= k < |fs| ==> |fs[k]| == 5
    ensures r.Ok? <==> forall k :: 0 <= k < |fs| ==> CoerceRow(fs[k]).Ok?
    ensures r.Ok? ==> |r.value| == |fs| && forall k :: 0 <= k < |fs| ==> CoerceRow(fs[k]) == Ok(r.value[k])
    ensures r.Err? ==> exists k :: 0 <= k < |fs| && CoerceRow(fs[k]) == Err(r.error) &&
                                   forall j :: 0 <= j < k ==> CoerceRow(fs[j]).Ok?
    ensures |fs| == 0 ==> r == Ok([])
    decreases |fs|
  {
    if |fs| == 0 then Ok([])
    else match CoerceRow(fs[0])
      case Err(f) => Err(f)
      case Ok(h) =>
        match CoerceAll(fs[1..])
        case Err(f) =>
          assert forall k :: 1 <= k < |fs| ==> fs[1..][k - 1] == fs[k];
          Err(f)
        case Ok(hs) =>
          assert forall k :: 1 <= k < |fs| ==> fs[1..][k - 1] == fs[k];
          Ok([h] + hs)
  }

  /** Coercion copies each row's host name and uptime, so fields that lie
      in their classes give hosts whose fields do too. */
  lemma CoercedHosts(fs: seq<seq<string>>)
    requires forall k :: 0 <= k < |fs| ==> |fs[k]| == 5
    ensures var r := CoerceAll(fs);
      r.Ok? ==> forall k :: 0 <= k < |r.value| ==> r.value[k].host == fs[k][0] && r.value[k].uptime == fs[k][2]
    ensures var r := CoerceAll(fs);
      r.Ok? && (forall k :: 0 <= k < |fs| ==> FieldOk(fs[k][0], NameClass) && FieldOk(fs[k][2], UptimeClass)) ==>
        forall h :: h in r.value ==> FieldOk(h.host, NameClass) && FieldOk(h.uptime, UptimeClass)
  {
    var r := CoerceAll(fs);
    if r.Ok? {
      forall k | 0 <= k < |r.value|
        ensures r.value[k].host == fs[k][0] && r.value[k].uptime == fs[k][2]
      {
        assert CoerceRow(fs[k]) == Ok(r.value[k]);
      }
    }
  }

  /** The five captured fields of each row of the page, in page order. */
  function PageFields(html: string): (fs: seq<seq<string>>)
    ensures |fs| == |RowsFrom(html, 0)|
    ensures forall k {:trigger RowsFrom(html, 0)[k]} :: 0 <= k < |fs| ==> fs[k] == Captures(RowPattern(), RowsFrom(html, 0)[k].pieces)
    ensures forall k :: 0 <= k < |fs| ==> |fs[k]| == 5 && FieldOk(fs[k][0], NameClass) && FieldOk(fs[k][2], UptimeClass)
  {
    var ms := RowsFrom(html, 0);
    RowFields(ms);
    CapturesOf(RowPattern(), ms)
  }

  /** `get_queue` (src/main.rs:95-142): one host per row of the page, in page
      order, or the failure of the first row that does not coerce. */
  function GetQueue(html: string): (r: Result<seq<Host>, Failure>)
    ensures r.Ok? <==> forall k :: 0 <= k < |PageFields(html)| ==> CoerceRow(PageFields(html)[k]).Ok?
    ensures r.Ok? ==> |r.value| == |PageFields(html)| &&
                      forall k :: 0 <= k < |r.value| ==> CoerceRow(PageFields(html)[k]) == Ok(r.value[k])
    ensures r.Ok? ==> forall k :: 0 <= k < |r.value| ==>
                        r.value[k].host == PageFields(html)[k][0] && r.value[k].uptime == PageFields(html)[k][2]
    ensures r.Err? ==> exists k :: 0 <= k < |PageFields(html)| && CoerceRow(PageFields(html)[k]) == Err(r.error) &&
                                   forall j :: 0 <= j < k ==> CoerceRow(PageFields(html)[j]).Ok?
    ensures |RowsFrom(html, 0)| == 0 ==> r == Ok([])
    ensures r.Ok? ==> forall h :: h in r.value ==> FieldOk(h.host, NameClass) && FieldOk(h.uptime, UptimeClass)
    ensures r.Err? ==> r.error != EmptyQueue
  {
    CoercedHosts(PageFields(html));
    CoerceAll(PageFields(html))
  }

  // ---------------------------------------------------------------------
  // Popping the heap (src/main.rs:145-148)

  /** `BinaryHeap::pop`: `None` on an empty heap, otherwise a greatest host
      in the inverted order, that is, one with the least load. */
  method Pop(heap: seq<Host>) returns (top: Option<Host>, rest: seq<Host>)
    ensures top.None? <==> |heap| == 0
    ensures top.Some? ==> top.value in heap && multiset(rest) + multiset{top.value} == multiset(heap)
    ensures top.Some? ==> forall h :: h in heap ==> AtLeast(top.value, h)
  {
    if |heap| == 0 {
      return None, [];
    }
    var best := 0;
    var k := 1;
    while k < |heap|
      invariant best < k <= |heap|
      invariant forall j :: 0 <= j < k ==> heap[best].load <= heap[j].load
    {
      if Cmp(heap[k], heap[best]) == Greater {
        best := k;
      }
      k := k + 1;
    }
    forall h | h in heap
      ensures AtLeast(heap[best], h)
    {
      AtLeastMeansLighter(heap[best], h);
    }
    top := Some(heap[best]);
    rest := heap[..best] + heap[best + 1..];
    RemoveAt(heap, best);
  }

  /** Taking one element out of a sequence leaves the rest of its multiset. */
  lemma RemoveAt(s: seq<Host>, i: nat)
    requires i < |s|
    ensures multiset(s[..i] + s[i + 1..]) + multiset{s[i]} == multiset(s)
  {
    assert s == s[..i] + [s[i]] + s[i + 1..];
  }

  /** Every host `Pop` may return has the same load: only the name printed
      for a tie is left open. */
  lemma GreatestLoadsAgree(heap: seq<Host>, a: Host, b: Host)
    requires a in heap && b in heap
    requires forall h :: h in heap ==> AtLeast(a, h)
    requires forall h :: h in heap ==> AtLeast(b, h)
    ensures a.load == b.load
  {
    AtLeastMeansLighter(a, b);
    AtLeastMeansLighter(b, a);
  }

  /** Whether a host is up plays no part: a down host that is strictly the
      least loaded is the only host `Pop` may return. */
  lemma DownHostSelected(heap: seq<Host>, top: Host, d: Host)
    requires d in heap && !d.up
    requires forall h :: h in heap && h != d ==> d.load < h.load
    requires top in heap && forall h :: h in heap ==> AtLeast(top, h)
    ensures top == d
  {
    AtLeastMeansLighter(top, d);
  }

  /** `main` without the network and the print: the name of the least loaded
      host on the page, or why there is none. */
  method LeastLoadedHost(html: string) returns (r: Result<string, Failure>)
    ensures GetQueue(html).Err? ==> r == Err(GetQueue(html).error)
    ensures GetQueue(html) == Ok([]) <==> r == Err(EmptyQueue)
    ensures GetQueue(html).Ok? && |GetQueue(html).value| > 0 ==> r.Ok?
    ensures r.Ok? ==> exists h :: h in GetQueue(html).value && h.host == r.value &&
                                  forall g :: g in GetQueue(html).value ==> h.load <= g.load
  {
    var q := GetQueue(html);
    if q.Err? {
      return Err(q.error);
    }
    var top, _ := Pop(q.value);
    if top.None? {
      return Err(EmptyQueue);
    }
    forall g | g in q.value ensures top.value.load <= g.load {
      AtLeastMeansLighter(top.value, g);
    }
    return Ok(top.value.host);
  }

  // ---------------------------------------------------------------------
  // Pages written out row by row

  /** Matches of `pat` written one after another. */
  function RenderAll(pat: seq<Token>, pss: seq<seq<Piece>>): string
    requires forall k :: 0 <= k < |pss| ==> FitsAll(pat, pss[k])
    decreases |pss|
  {
    if |pss| == 0 then [] else Render(pat, pss[0]) + RenderAll(pat, pss[1..])
  }

  /** For a pattern the matcher decides exactly, a match written at `i`
      heads the leftmost matches from `i`. */
  lemma LeftmostRenderedHead(s: string, pat: seq<Token>, i: nat, ps: seq<Piece>, rest: string, ms: seq<Match>)
    requires StartsWithTag(pat) && Deterministic(pat) && FitsAll(pat, ps)
    requires Occurs(Render(pat, ps) + rest, s, i)
    requires Leftmost(s, pat, i, ms)
    ensures |ms| > 0 && ms[0] == Match(i, i + |Render(pat, ps)|, ps)
    ensures Occurs(rest, s, ms[0].end)
  {
    var text := Render(pat, ps);
    OccursConcat(text, rest, s, i);
    MatchTokensComplete(s, i, pat, ps, i + |text|);
    MatchNeedsTag(s, pat, i);
  }

  /** ... and so matches written one after another and followed by text
      without `<` are the leftmost matches, one for one. */
  lemma {:induction false} LeftmostRendered(s: string, pat: seq<Token>, i: nat, pss: seq<seq<Piece>>, ms: seq<Match>)
    requires StartsWithTag(pat) && Deterministic(pat)
    requires forall k :: 0 <= k < |pss| ==> FitsAll(pat, pss[k])
    requires Occurs(RenderAll(pat, pss), s, i)
    requires forall p :: i + |RenderAll(pat, pss)| <= p < |s| ==> s[p] != '<'
    requires Leftmost(s, pat, i, ms)
    ensures |ms| == |pss|
    ensures forall k :: 0 <= k < |pss| ==> ms[k].pieces == pss[k]
    decreases |pss|
  {
    if |pss| == 0 {
      LeftmostSkipsText(s, pat, i, |s|, []);
      LeftmostUnique(s, pat, i, ms, []);
    } else {
      LeftmostRenderedHead(s, pat, i, pss[0], RenderAll(pat, pss[1..]), ms);
      assert forall k :: 1 <= k < |pss| ==> pss[k] == pss[1..][k - 1];
      LeftmostRendered(s, pat, ms[0].end, pss[1..], ms[1..]);
    }
  }

  lemma ScanRendered(s: string, pat: seq<Token>, i: nat, pss: seq<seq<Piece>>)
    requires StartsWithTag(pat) && Deterministic(pat)
    requires forall k :: 0 <= k < |pss| ==> FitsAll(pat, pss[k])
    requires Occurs(RenderAll(pat, pss), s, i)
    requires forall p :: i + |RenderAll(pat, pss)| <= p < |s| ==> s[p] != '<'
    ensures |Scan(s, pat, i)| == |pss|
    ensures forall k :: 0 <= k < |pss| ==> Scan(s, pat, i)[k].pieces == pss[k]
  {
    LeftmostRendered(s, pat, i, pss, Scan(s, pat, i));
  }

  /** A page of such matches between two texts without `<` holds exactly
      those matches. */
  lemma ScanPage(pre: string, pat: seq<Token>, pss: seq<seq<Piece>>, post: string)
    requires StartsWithTag(pat) && Deterministic(pat)
    requires forall k :: 0 <= k < |pss| ==> FitsAll(pat, pss[k])
    requires NoTag(pre) && NoTag(post)
    ensures var ms := Scan(pre + RenderAll(pat, pss) + post, pat, 0);
      |ms| == |pss| && forall k :: 0 <= k < |pss| ==> ms[k].pieces == pss[k]
  {
    var body := RenderAll(pat, pss);
    var s := pre + body + post;
    assert forall p :: 0 <= p < |pre| ==> s[p] == pre[p];
    ScanSkipsText(s, pat, 0, |pre|);
    BodyOccurs(pre, body, post);
    PostNoTag(pre, body, post);
    ScanRendered(s, pat, |pre|, pss);
  }

  /** The middle of three texts occurs right after the first. */
  lemma BodyOccurs(pre: string, body: string, post: string)
    ensures Occurs(body, pre + body + post, |pre|)
  {
    var s := pre + body + post;
    OccursSlice(body, s, |pre|);
    assert s[|pre|..|pre| + |body|] == body;
  }

  /** A third text without `<` leaves none after the first two. */
  lemma PostNoTag(pre: string, body: string, post: string)
    requires NoTag(post)
    ensures var s := pre + body + post;
      forall p :: |pre| + |body| <= p < |s| ==> s[p] != '<'
  {
    var s := pre + body + post;
    assert forall p :: |pre| + |body| <= p < |s| ==> s[p] == post[p - |pre| - |body|];
  }

  /** The pieces of each row. */
  function PiecesOf(rows: seq<Row>): (pss: seq<seq<Piece>>)
    requires forall k :: 0 <= k < |rows| ==> RowOk(rows[k])
    ensures |pss| == |rows|
    ensures forall k :: 0 <= k < |rows| ==> pss[k] == RowPieces(rows[k])
    decreases |rows|
  {
    if |rows| == 0 then []
    else
      assert forall k :: 1 <= k < |rows| ==> rows[k] == rows[1..][k - 1];
      [RowPieces(rows[0])] + PiecesOf(rows[1..])
  }

  lemma PiecesFit(rows: seq<Row>)
    requires forall k :: 0 <= k < |rows| ==> RowOk(rows[k])
    ensures forall k :: 0 <= k < |rows| ==> FitsAll(RowPattern(), PiecesOf(rows)[k])
  {
    forall k | 0 <= k < |rows| ensures FitsAll(RowPattern(), PiecesOf(rows)[k]) {
      RowFits(rows[k]);
    }
  }

  /** Rows written one after another. */
  function RenderRows(rows: seq<Row>): string
    requires forall k :: 0 <= k < |rows| ==> RowOk(rows[k])
  {
    PiecesFit(rows);
    RenderAll(RowPattern(), PiecesOf(rows))
  }

  /** A row's host, read straight from its fields. */
  function RowHost(r: Row): Result<Host, Failure>
    requires RowOk(r)
  {
    CoerceRow(CellFields(r.cells))
  }

  /** A page made of text without `<`, rows, and text without `<` holds
      exactly those rows, in order. */
  lemma RowsOfPage(pre: string, rows: seq<Row>, post: string)
    requires NoTag(pre) && NoTag(post)
    requires forall k :: 0 <= k < |rows| ==> RowOk(rows[k])
    ensures var ms := RowsFrom(pre + RenderRows(rows) + post, 0);
      |ms| == |rows| && forall k :: 0 <= k < |rows| ==> ms[k].pieces == RowPieces(rows[k])
  {
    var pss := PiecesOf(rows);
    PiecesFit(rows);
    RowStartsWithTag();
    RowDeterministic();
    ScanPage(pre, RowPattern(), pss, post);
  }

  /** ... and so one host per row, in order, unless some row does not coerce. */
  lemma GetQueueOfRows(pre: string, rows: seq<Row>, post: string)
    requires NoTag(pre) && NoTag(post)
    requires forall k :: 0 <= k < |rows| ==> RowOk(rows[k])
    ensures var q := GetQueue(pre + RenderRows(rows) + post);
      && (q.Ok? <==> forall k :: 0 <= k < |rows| ==> RowHost(rows[k]).Ok?)
      && (q.Ok? ==> |q.value| == |rows| && forall k :: 0 <= k < |rows| ==> RowHost(rows[k]) == Ok(q.value[k]))
  {
    var s := pre + RenderRows(rows) + post;
    RowsOfPage(pre, rows, post);
    var fs := PageFields(s);
    forall k | 0 <= k < |rows|
      ensures CoerceRow(fs[k]) == RowHost(rows[k])
    {
      RowFits(rows[k]);
    }
  }
}
