/** The state transitions of App.tsx that are not rendering: logging in,
    searching (history update, the two fetches, the merge), and sharing a
    snapshot. React state and the local-storage keys it mirrors are one
    immutable record; clock readings, snapshot ids, the geolocation result
    and the service replies are parameters. */
module AppState {
  import opened Wrappers
  import opened Types
  import Text
  import GeminiService
  import TripMerge

  /** How many destinations the search history keeps. */
  const HistoryLimit: nat := 5

  /** What App.tsx keeps between events. `destination` is the search box;
      `snapshotLog` is the global `lastmile_all_snapshots` list. */
  datatype AppState = AppState(
    user: Option<User>,
    inbox: seq<SharedSnapshot>,
    destination: string,
    history: seq<string>,
    analysis: Option<TripAnalysis>,
    snapshotLog: seq<SharedSnapshot>)

  /** Nobody logged in, nothing stored. */
  const Initial := AppState(None, [], "", [], None, [])

  // ----------------------------------------------------------- sequences

  /** `a` is `b` with some elements left out, in the same order. */
  predicate IsSubsequence<T(==)>(a: seq<T>, b: seq<T>)
    decreases |b|
  {
    |a| == 0 || (|b| > 0 && ((a[0] == b[0] && IsSubsequence(a[1..], b[1..])) || IsSubsequence(a, b[1..])))
  }

  /** Leaving out the tail of a subsequence leaves a subsequence. */
  lemma {:induction false} SubsequencePrefix<T>(a: seq<T>, b: seq<T>, k: nat)
    requires IsSubsequence(a, b) && k <= |a|
    ensures IsSubsequence(a[..k], b)
    decreases |b|
  {
    if k == 0 {
    } else if a[0] == b[0] && IsSubsequence(a[1..], b[1..]) {
      SubsequencePrefix(a[1..], b[1..], k - 1);
      assert a[..k][1..] == a[1..][..k - 1];
    } else {
      SubsequencePrefix(a, b[1..], k);
    }
  }

  // ------------------------------------------------------------- history

  /** No two entries are equal up to letter case. */
  predicate CaseDistinct(s: seq<string>) {
    forall i, j :: 0 <= i < j < |s| ==> !Text.CaseEq(s[i], s[j])
  }

  /** The earlier history without every entry equal to `dest` up to case. */
  function RemoveCaseEq(prev: seq<string>, dest: string): (r: seq<string>)
    ensures |r| <= |prev|
    ensures forall h :: h in r <==> h in prev && !Text.CaseEq(h, dest)
    ensures IsSubsequence(r, prev)
  {
    if |prev| == 0 then []
    else
      var rest := RemoveCaseEq(prev[1..], dest);
      assert prev == [prev[0]] + prev[1..];
      if Text.CaseEq(prev[0], dest) then rest
      else
        assert ([prev[0]] + rest)[1..] == rest;
        [prev[0]] + rest
  }

  /** The filter keeps every copy of each entry unequal to `dest` up to
      case, and no copy of the others. */
  lemma {:induction false} RemoveCaseEqCounts(prev: seq<string>, dest: string, h: string)
    ensures multiset(RemoveCaseEq(prev, dest))[h] == if Text.CaseEq(h, dest) then 0 else multiset(prev)[h]
    decreases |prev|
  {
    if |prev| > 0 {
      RemoveCaseEqCounts(prev[1..], dest, h);
      assert prev == [prev[0]] + prev[1..];
    }
  }

  /** A list with no entry matching `dest` passes the filter unchanged. */
  lemma {:induction false} RemoveCaseEqKeepsNonMatching(s: seq<string>, dest: string)
    requires forall i :: 0 <= i < |s| ==> !Text.CaseEq(s[i], dest)
    ensures RemoveCaseEq(s, dest) == s
  {
    if |s| > 0 {
      RemoveCaseEqKeepsNonMatching(s[1..], dest);
    }
  }

  /** Filtering a case-distinct list keeps it case-distinct. */
  lemma {:induction false} RemoveCaseEqKeepsDistinct(s: seq<string>, dest: string)
    ensures CaseDistinct(s) ==> CaseDistinct(RemoveCaseEq(s, dest))
  {
    if |s| > 0 && CaseDistinct(s) {
      RemoveCaseEqKeepsDistinct(s[1..], dest);
      var rest := RemoveCaseEq(s[1..], dest);
      if !Text.CaseEq(s[0], dest) {
        forall j | 0 <= j < |rest|
          ensures !Text.CaseEq(s[0], rest[j])
        {
          assert rest[j] in s[1..];
          var k :| 0 <= k < |s[1..]| && s[1..][k] == rest[j];
          assert s[k + 1] == rest[j];
        }
        var r := [s[0]] + rest;
        forall i, j | 0 <= i < j < |r|
          ensures !Text.CaseEq(r[i], r[j])
        {
          if i > 0 {
            assert r[i] == rest[i - 1] && r[j] == rest[j - 1];
          }
        }
      }
    }
  }

  /** The history update of a manual search: `dest`
      goes to the front, every earlier entry equal to it up to letter case
      goes, the others keep their order, and at most five remain. */
  function InsertHistory(prev: seq<string>, dest: string): (r: seq<string>)
    ensures 1 <= |r| <= HistoryLimit
    ensures |r| == (if 1 + |RemoveCaseEq(prev, dest)| < HistoryLimit then 1 + |RemoveCaseEq(prev, dest)| else HistoryLimit)
    ensures r[0] == dest
    ensures r[1..] == RemoveCaseEq(prev, dest)[..|r| - 1]
    ensures forall i :: 1 <= i < |r| ==> !Text.CaseEq(r[i], dest)
    ensures IsSubsequence(r[1..], prev)
    ensures forall h :: h in prev && !Text.CaseEq(h, dest) && |prev| < HistoryLimit ==> h in r
    ensures CaseDistinct(prev) ==> CaseDistinct(r)
  {
    var kept := RemoveCaseEq(prev, dest);
    var n := if |kept| < HistoryLimit - 1 then |kept| else HistoryLimit - 1;
    var r := [dest] + kept[..n];
    assert r[1..] == kept[..n];
    SubsequencePrefix(kept, prev, n);
    RemoveCaseEqKeepsDistinct(prev, dest);
    PrependKeepsDistinct(dest, kept, n);
    assert |prev| < HistoryLimit ==> kept[..n] == kept;
    r
  }

  /** Putting an entry that matches none of a case-distinct list in front of
      a prefix of that list keeps it case-distinct. */
  lemma PrependKeepsDistinct(dest: string, kept: seq<string>, k: nat)
    requires k <= |kept|
    requires forall h :: h in kept ==> !Text.CaseEq(h, dest)
    ensures CaseDistinct(kept) ==> CaseDistinct([dest] + kept[..k])
  {
    var r := [dest] + kept[..k];
    if CaseDistinct(kept) {
      forall i, j | 0 <= i < j < |r|
        ensures !Text.CaseEq(r[i], r[j])
      {
        if i == 0 {
          assert r[j] in kept;
        } else {
          assert r[i] == kept[i - 1] && r[j] == kept[j - 1];
        }
      }
    }
  }

  /** Searching the same destination twice in a row leaves the history as
      the first search left it. */
  lemma InsertHistoryIdempotent(prev: seq<string>, dest: string)
    ensures InsertHistory(InsertHistory(prev, dest), dest) == InsertHistory(prev, dest)
  {
    var r := InsertHistory(prev, dest);
    RemoveCaseEqKeepsNonMatching(r[1..], dest);
    assert r == [r[0]] + r[1..];
    assert Text.CaseEq(dest, dest);
    assert RemoveCaseEq(r, dest) == RemoveCaseEq(r[1..], dest);
  }

  /** The worked example: searching "Paris" with history ["paris", "Rome"]
      moves it to the front instead of adding a second entry. */
  lemma InsertHistoryExample()
    ensures InsertHistory(["paris", "Rome"], "Paris") == ["Paris", "Rome"]
  {
    assert Text.ToLower("paris") == Text.ToLower("Paris");
    assert !Text.CaseEq("Rome", "Paris") by {
      assert |Text.ToLower("Rome")| != |Text.ToLower("Paris")|;
    }
    var prev: seq<string> := ["paris", "Rome"];
    assert prev[1..] == ["Rome"];
    assert RemoveCaseEq(prev, "Paris") == RemoveCaseEq(["Rome"], "Paris");
  }

  // -------------------------------------------------------------- handles

  /** A typed handle normalised: the first `@` goes, wherever it
      is, and ASCII capitals are lowered. */
  function NormalizeHandle(s: string): (r: string)
    ensures Text.IsLower(r)
    ensures '@' !in s ==> r == Text.ToLower(s)
    ensures '@' in s ==> |r| == |s| - 1 && multiset(r)['@'] == multiset(s)['@'] - 1
    ensures '@' in s ==> exists i :: 0 <= i < |s| && s[i] == '@' && '@' !in s[..i] && r == Text.ToLower(s[..i] + s[i + 1..])
  {
    var stripped := Text.RemoveFirst(s, '@');
    var r := Text.ToLower(stripped);
    assert multiset(r)['@'] == multiset(stripped)['@'] by {
      LowerKeepsAtCount(stripped);
    }
    r
  }

  /** Two strings with `@` at the same positions have as many `@` signs. */
  lemma {:induction false} SameAtPositions(a: string, b: string)
    requires |a| == |b|
    requires forall i :: 0 <= i < |a| ==> (a[i] == '@' <==> b[i] == '@')
    ensures multiset(a)['@'] == multiset(b)['@']
    decreases |a|
  {
    if |a| > 0 {
      var n := |a| - 1;
      SameAtPositions(a[..n], b[..n]);
      assert a == a[..n] + [a[n]];
      assert b == b[..n] + [b[n]];
    }
  }

  /** Lower-casing neither creates nor removes `@` signs. */
  lemma LowerKeepsAtCount(s: string)
    ensures multiset(Text.ToLower(s))['@'] == multiset(s)['@']
  {
    SameAtPositions(Text.ToLower(s), s);
  }

  /** A handle typed with at most one `@` comes out without any. */
  lemma NormalizeHandleSingleAt(s: string)
    requires multiset(s)['@'] <= 1
    ensures '@' !in NormalizeHandle(s)
  {
  }

  /** Only the first `@` is removed: a doubled prefix keeps one. */
  lemma NormalizeHandleDoubleAt()
    ensures NormalizeHandle("@@bob") == "@bob"
  {
    DoubleAtStripped();
    StrippedIsLower();
  }

  lemma DoubleAtStripped()
    ensures Text.RemoveFirst("@@bob", '@') == "@bob"
  {
  }

  lemma StrippedIsLower()
    ensures Text.ToLower("@bob") == "@bob"
  {
  }

  // ---------------------------------------------------------------- login

  /** Logging in: blank input does nothing;
      otherwise the normalised, untrimmed input becomes the user. */
  function Login(st: AppState, input: string): (r: AppState)
    ensures Text.IsBlank(input) ==> r == st
    ensures !Text.IsBlank(input) ==>
              && r.user == Some(User(NormalizeHandle(input)))
              && Text.IsLower(r.user.value.username)
              && r.(user := st.user) == st
  {
    if Text.IsBlank(input) then st
    else st.(user := Some(User(NormalizeHandle(input))))
  }

  // --------------------------------------------------------------- search

  /** A device position; the coordinates only feed the prompts. */
  datatype Coords = Coords(latitude: real, longitude: real)

  /** The destination `performSearch` works on: the explicit target if it
      is non-empty, otherwise the search box. */
  function FinalDestination(st: AppState, target: Option<string>): (r: string)
    ensures TruthyString(target) ==> r == target.value
    ensures !TruthyString(target) ==> r == st.destination
    ensures r == "" <==> !TruthyString(target) && st.destination == ""
  {
    StringOr(target, st.destination)
  }

  /** A search, manual or an automatic refresh, once
      the position and both replies are known. Nothing happens without a
      destination. A manual search clears the shown analysis and updates
      the history; an automatic refresh does neither. The new analysis is
      shown only when the position was obtained and the core fetch
      succeeded, whatever became of the deep fetch. */
  function PerformSearch(
    st: AppState, target: Option<string>, isAutoRefresh: bool, position: Option<Coords>,
    coreReply: Result<GeminiService.ModelResponse, GeminiService.ServiceError>,
    deepReply: Result<GeminiService.ModelResponse, GeminiService.ServiceError>,
    parse: GeminiService.Parser, now: int): (r: AppState)
    ensures FinalDestination(st, target) == "" ==> r == st
    ensures r.user == st.user && r.inbox == st.inbox && r.snapshotLog == st.snapshotLog
    ensures r.destination == st.destination
    ensures isAutoRefresh ==> r.history == st.history
    ensures !isAutoRefresh && FinalDestination(st, target) != "" ==>
              r.history == InsertHistory(st.history, FinalDestination(st, target))
    ensures FinalDestination(st, target) != "" &&
            (position.None? || GeminiService.CoreAnalysis(coreReply, parse).Failure?) ==>
              r.analysis == (if isAutoRefresh then st.analysis else None)
    ensures FinalDestination(st, target) != "" && position.Some? &&
            GeminiService.CoreAnalysis(coreReply, parse).Success? ==>
              var core := GeminiService.CoreAnalysis(coreReply, parse).value;
              && TripMerge.Mergeable(core)
              && r.analysis == Some(TripMerge.Merge(FinalDestination(st, target), core,
                                                    GeminiService.DeepAnalysis(deepReply, parse), now))
    ensures r.analysis != st.analysis && r.analysis.Some? ==>
              TripMerge.ValidAnalysis(r.analysis.value) && r.analysis.value.timestamp == now
  {
    var finalDest := FinalDestination(st, target);
    if finalDest == "" then st
    else
      var started :=
        if isAutoRefresh then st
        else st.(analysis := None, history := InsertHistory(st.history, finalDest));
      if position.None? then started
      else
        match GeminiService.CoreAnalysis(coreReply, parse)
        case Failure(_) => started
        case Success(core) =>
          var deep := GeminiService.DeepAnalysis(deepReply, parse);
          TripMerge.ValidCoreMergesValid(finalDest, core, deep, now);
          started.(analysis := Some(TripMerge.Merge(finalDest, core, deep, now)))
  }

  /** A failing deep fetch never blocks a result: with a position and a
      successful core fetch the analysis is shown, with the deep defaults. */
  lemma DeepFailureDoesNotBlock(
    st: AppState, target: Option<string>, isAutoRefresh: bool, position: Option<Coords>,
    coreReply: Result<GeminiService.ModelResponse, GeminiService.ServiceError>,
    error: GeminiService.ServiceError, parse: GeminiService.Parser, now: int)
    requires FinalDestination(st, target) != "" && position.Some?
    requires GeminiService.CoreAnalysis(coreReply, parse).Success?
    ensures var r := PerformSearch(st, target, isAutoRefresh, position, coreReply, Failure(error), parse, now);
            && r.analysis.Some?
            && r.analysis.value.driving.trafficTrend == Some("stable")
            && r.analysis.value.groundingSources == []
  {
    var core := GeminiService.CoreAnalysis(coreReply, parse).value;
    TripMerge.MergeWithDeepFallback(FinalDestination(st, target), core, now);
  }

  // ---------------------------------------------------------------- share

  /** The sender of a snapshot: the user's name, or "anonymous" without a
      user or with an empty name. */
  function Sender(user: Option<User>): (r: string)
    ensures r != ""
    ensures user.Some? && user.value.username != "" ==> r == user.value.username
    ensures !(user.Some? && user.value.username != "") ==> r == "anonymous"
    ensures user.Some? && Text.IsLower(user.value.username) ==> Text.IsLower(r)
  {
    if user.Some? && user.value.username != "" then user.value.username else "anonymous"
  }

  /** Sharing the shown analysis: without an analysis or a
      recipient nothing happens; otherwise a snapshot of the analysis is
      appended to the global log, and also put at the front of the inbox
      when it is addressed to the current user. */
  function Share(st: AppState, recipient: string, id: string, now: int): (r: AppState)
    ensures st.analysis.None? || recipient == "" ==> r == st
    ensures st.analysis.Some? && recipient != "" ==>
              && |r.snapshotLog| == |st.snapshotLog| + 1
              && r.snapshotLog[..|st.snapshotLog|] == st.snapshotLog
              && var snap := r.snapshotLog[|st.snapshotLog|];
              && snap == SharedSnapshot(id, Sender(st.user), NormalizeHandle(recipient), st.analysis.value, now)
              && (st.user.Some? && snap.to == st.user.value.username ==> r.inbox == [snap] + st.inbox)
              && (!(st.user.Some? && snap.to == st.user.value.username) ==> r.inbox == st.inbox)
    ensures r.user == st.user && r.analysis == st.analysis && r.history == st.history
    ensures r.destination == st.destination
  {
    if st.analysis.None? || recipient == "" then st
    else
      var snap := SharedSnapshot(id, Sender(st.user), NormalizeHandle(recipient), st.analysis.value, now);
      var log := st.snapshotLog + [snap];
      assert log[..|st.snapshotLog|] == st.snapshotLog;
      st.(snapshotLog := log,
          inbox := if st.user.Some? && snap.to == st.user.value.username then [snap] + st.inbox else st.inbox)
  }

  // ------------------------------------------------------------ invariant

  /** A stored snapshot: lower-case sender and recipient, valid data. */
  predicate SnapshotOk(s: SharedSnapshot) {
    Text.IsLower(s.from) && Text.IsLower(s.to) && TripMerge.ValidAnalysis(s.data)
  }

  /** What every reachable state satisfies: a short, case-distinct history,
      a lower-case user name, and only valid analyses, shown or shared. */
  predicate Valid(st: AppState) {
    && |st.history| <= HistoryLimit && CaseDistinct(st.history)
    && (st.user.Some? ==> Text.IsLower(st.user.value.username))
    && (st.analysis.Some? ==> TripMerge.ValidAnalysis(st.analysis.value))
    && (forall i :: 0 <= i < |st.inbox| ==> SnapshotOk(st.inbox[i]))
    && (forall i :: 0 <= i < |st.snapshotLog| ==> SnapshotOk(st.snapshotLog[i]))
  }

  lemma InitialValid()
    ensures Valid(Initial)
  {
  }

  lemma LoginPreservesValid(st: AppState, input: string)
    requires Valid(st)
    ensures Valid(Login(st, input))
  {
  }

  lemma SearchPreservesValid(
    st: AppState, target: Option<string>, isAutoRefresh: bool, position: Option<Coords>,
    coreReply: Result<GeminiService.ModelResponse, GeminiService.ServiceError>,
    deepReply: Result<GeminiService.ModelResponse, GeminiService.ServiceError>,
    parse: GeminiService.Parser, now: int)
    requires Valid(st)
    ensures Valid(PerformSearch(st, target, isAutoRefresh, position, coreReply, deepReply, parse, now))
  {
  }

  lemma SharePreservesValid(st: AppState, recipient: string, id: string, now: int)
    requires Valid(st)
    ensures Valid(Share(st, recipient, id, now))
  {
    var r := Share(st, recipient, id, now);
    if st.analysis.Some? && recipient != "" {
      var snap := r.snapshotLog[|st.snapshotLog|];
      assert Text.IsLower("anonymous");
      assert SnapshotOk(snap);
      forall i | 0 <= i < |r.snapshotLog|
        ensures SnapshotOk(r.snapshotLog[i])
      {
        if i < |st.snapshotLog| {
          assert r.snapshotLog[i] == st.snapshotLog[i];
        }
      }
      forall i | 0 <= i < |r.inbox|
        ensures SnapshotOk(r.inbox[i])
      {
        if r.inbox != st.inbox && i > 0 {
          assert r.inbox[i] == st.inbox[i - 1];
        }
      }
    }
  }
}
