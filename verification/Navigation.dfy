/** Directory navigation in app.js: the selection, the two current paths, and the listing requests
    that are still under way, whose responses set a path when they arrive.
 */
module Navigation {
  import opened Bytes

  const STORAGE: string := "Storage"
  const ANR: string := "ANR"
  const ANR_ROOT: string := "/data/anr/"

  // ---------------------------------------------------------------- paths

  /** Begins and ends with a slash, and no name between slashes is empty. */
  predicate WellFormed(p: string) {
    && p != "" && p[0] == '/' && p[|p| - 1] == '/'
    && forall i :: 0 < i < |p| ==> !(p[i - 1] == '/' && p[i] == '/')
  }

  predicate Name(s: string) {
    s != "" && '/' !in s
  }

  /** `lastIndexOf("/")` */
  function LastSlash(s: string): (i: int)
    ensures -1 <= i < |s|
    ensures i >= 0 ==> s[i] == '/'
    ensures forall k :: i < k < |s| ==> s[k] != '/'
  {
    if s == "" then -1 else if s[|s| - 1] == '/' then |s| - 1 else LastSlash(s[..|s| - 1])
  }

  /** `path.substring(0, path.substring(0, path.length - 1).lastIndexOf("/") + 1)` */
  function Parent(p: string): string {
    if p == "" then "" else p[..LastSlash(p[..|p| - 1]) + 1]
  }

  function Child(p: string, name: string): string {
    p + name + "/"
  }

  lemma LastSlashIs(s: string, i: nat)
    requires i < |s| && s[i] == '/' && forall k :: i < k < |s| ==> s[k] != '/'
    ensures LastSlash(s) == i
  {
  }

  /** Going back undoes entering. */
  lemma ParentOfChild(p: string, name: string)
    requires WellFormed(p) && Name(name)
    ensures WellFormed(Child(p, name)) && Parent(Child(p, name)) == p
  {
    var c := Child(p, name);
    assert c[..|c| - 1] == p + name;
    forall k | |p| - 1 < k < |p + name|
      ensures (p + name)[k] != '/'
    {
      assert (p + name)[k] == name[k - |p|];
      assert name[k - |p|] in name;
    }
    LastSlashIs(p + name, |p| - 1);
    forall i | 0 < i < |c|
      ensures !(c[i - 1] == '/' && c[i] == '/')
    {
      if |p| <= i < |c| - 1 {
        assert c[i] == name[i - |p|] && name[i - |p|] in name;
      } else if i == |c| - 1 {
        assert c[i - 1] == name[i - 1 - |p|] && name[i - 1 - |p|] in name;
      }
    }
  }

  /** Every path but the root is entered from its parent by one name: entering and going back are
      each other's inverse. */
  lemma ChildOfParent(p: string)
    requires WellFormed(p) && p != "/"
    ensures WellFormed(Parent(p)) && Parent(p) < p
    ensures Name(p[|Parent(p)|..|p| - 1]) && Child(Parent(p), p[|Parent(p)|..|p| - 1]) == p
  {
    var front := p[..|p| - 1];
    assert |p| > 1;
    assert front[0] == '/';
    var i := LastSlash(front);
    assert i >= 0;
    var last := |p| - 1;
    assert p[last] == '/' && p[last - 1] != '/';
    assert i < last - 1;
    var name := p[i + 1..|p| - 1];
    forall k | 0 <= k < |name|
      ensures name[k] != '/'
    {
      assert name[k] == front[i + 1 + k];
    }
  }

  /** The last slash of a path that goes beyond a directory is not before that directory's end. */
  lemma ParentStaysUnder(root: string, p: string)
    requires WellFormed(root) && WellFormed(p) && root <= p && p != root
    ensures p != "/" && root <= Parent(p) < p
  {
    ChildOfParent(p);
    var front := p[..|p| - 1];
    assert front[|root| - 1] == '/';
  }

  // ---------------------------------------------------------------- going back repeatedly

  function Slashes(p: string): nat {
    if p == "" then 0 else Slashes(p[..|p| - 1]) + if p[|p| - 1] == '/' then 1 else 0
  }

  /** The path after k steps back, where `root` stops them. */
  function BackFrom(root: string, p: string, k: nat): string {
    if k == 0 then p else BackFrom(root, if p == root then p else Parent(p), k - 1)
  }

  lemma {:induction false} SlashesOfName(p: string, name: string)
    requires '/' !in name
    ensures Slashes(p + name) == Slashes(p)
  {
    if name == "" {
      assert p + name == p;
    } else {
      var front := name[..|name| - 1];
      assert (p + name)[..|p + name| - 1] == p + front;
      assert name[|name| - 1] in name;
      SlashesOfName(p, front);
    }
  }

  lemma SlashesOfParent(p: string)
    requires WellFormed(p) && p != "/"
    ensures Slashes(p) == Slashes(Parent(p)) + 1
  {
    ChildOfParent(p);
    var name := p[|Parent(p)|..|p| - 1];
    assert p[..|p| - 1] == Parent(p) + name;
    SlashesOfName(Parent(p), name);
  }

  /** Steps back reach the root, each strictly shorter than the one before, after as many steps as
      there are directories below it, and not earlier. */
  lemma {:induction false} BackReachesRoot(root: string, p: string, k: nat)
    requires WellFormed(root) && WellFormed(p) && root <= p
    ensures Slashes(root) <= Slashes(p)
    ensures root <= BackFrom(root, p, k) <= p && WellFormed(BackFrom(root, p, k))
    ensures BackFrom(root, p, k) == root <==> k >= Slashes(p) - Slashes(root)
    decreases |p|, k
  {
    if p == root {
      if k > 0 {
        BackReachesRoot(root, p, k - 1);
      }
    } else {
      ParentStaysUnder(root, p);
      ChildOfParent(p);
      SlashesOfParent(p);
      BackReachesRoot(root, Parent(p), if k > 0 then k - 1 else 0);
    }
  }

  // ---------------------------------------------------------------- the server's answer

  /** Runs of slashes collapsed, as `java.io.File` does. */
  function Collapse(p: string): string {
    if |p| < 2 then p
    else if p[|p| - 2] == '/' && p[|p| - 1] == '/' then Collapse(p[..|p| - 1])
    else Collapse(p[..|p| - 1]) + [p[|p| - 1]]
  }

  /** `File.getPath()`: collapsed, and without a slash at the end unless it is the root. */
  function GetPath(p: string): string {
    var q := Collapse(p);
    if |q| > 1 && q[|q| - 1] == '/' then q[..|q| - 1] else q
  }

  /** The `path` of the response to a request for `p`: `getPath()` with a slash at the end. */
  function Answered(p: string): string {
    var q := GetPath(p);
    if q == "/" then q else q + "/"
  }

  lemma {:induction false} CollapseIs(p: string)
    ensures p == "" <==> Collapse(p) == ""
    ensures p != "" ==> Collapse(p)[0] == p[0] && Collapse(p)[|Collapse(p)| - 1] == p[|p| - 1]
    ensures forall i :: 0 < i < |Collapse(p)| ==> !(Collapse(p)[i - 1] == '/' && Collapse(p)[i] == '/')
    ensures (forall i :: 0 < i < |p| ==> !(p[i - 1] == '/' && p[i] == '/')) ==> Collapse(p) == p
  {
    if |p| >= 2 {
      CollapseIs(p[..|p| - 1]);
      assert p == p[..|p| - 1] + [p[|p| - 1]];
    }
  }

  /** The server answers every absolute path with a well-formed one, and a well-formed one with
      itself. */
  lemma AnswerIsWellFormed(p: string)
    requires p != "" && p[0] == '/'
    ensures WellFormed(Answered(p))
    ensures Answered(p) == p <==> WellFormed(p)
  {
    CollapseIs(p);
  }

  /** The names of a path, in order, however many slashes stand between them. */
  function Names(p: string): (names: seq<string>)
    ensures p != "" && p[|p| - 1] != '/' ==> names != []
  {
    if p == "" then [] else
    var before, c := Names(p[..|p| - 1]), p[|p| - 1];
    if c == '/' then before
    else if |p| == 1 || p[|p| - 2] == '/' then before + [[c]]
    else before[..|before| - 1] + [before[|before| - 1] + [c]]
  }

  /** The path of a directory: every name between single slashes. */
  function PathOf(names: seq<string>): string {
    if names == [] then "/" else PathOf(names[..|names| - 1]) + names[|names| - 1] + "/"
  }

  /** What names are, by how a path is put together. */
  lemma {:induction false} NamesOf(p: string, name: string)
    requires Name(name)
    ensures Names("") == [] && Names(p + "/") == Names(p)
    ensures Names(p + "/" + name) == Names(p) + [name]
    decreases |name|
  {
    var s := p + "/" + name;
    assert (p + "/")[..|p|] == p;
    var front, c := name[..|name| - 1], name[|name| - 1];
    assert c in name;
    assert s[..|s| - 1] == p + "/" + front;
    if front == "" {
      assert p + "/" + front == p + "/";
      assert name == [c];
    } else {
      assert forall x :: x in front ==> x in name;
      NamesOf(p, front);
      assert front[|front| - 1] in name;
      assert s[|s| - 2] == front[|front| - 1];
      assert name == front + [c];
    }
  }

  lemma NamesStep(q: string, c: char)
    ensures Names(q + [c]) == var before := Names(q);
                              if c == '/' then before
                              else if q == "" || q[|q| - 1] == '/' then before + [[c]]
                              else before[..|before| - 1] + [before[|before| - 1] + [c]]
  {
    var s := q + [c];
    assert s[..|s| - 1] == q && s[|s| - 1] == c;
    assert q != "" ==> s[|s| - 2] == q[|q| - 1];
  }

  lemma CollapseStep(q: string, c: char)
    requires q != ""
    ensures Collapse(q + [c]) == if q[|q| - 1] == '/' && c == '/' then Collapse(q) else Collapse(q) + [c]
    ensures Collapse("") == "" && Collapse([c]) == [c]
  {
    assert (q + [c])[..|q|] == q;
  }

  lemma {:induction false} CollapseKeepsNames(p: string)
    ensures Names(Collapse(p)) == Names(p)
  {
    hide Names;
    hide Collapse;
    if |p| >= 2 {
      var front, c := p[..|p| - 1], p[|p| - 1];
      assert front + [c] == p;
      CollapseKeepsNames(front);
      CollapseIs(front);
      CollapseStep(front, c);
      NamesStep(front, c);
      NamesStep(Collapse(front), c);
    } else {
      CollapseStep("/", '/');
      assert |p| == 1 ==> p == [p[0]];
      CollapseStep("/", if p == "" then '/' else p[0]);
    }
  }

  /** A well-formed path is the path of its names. */
  lemma {:induction false} PathOfNames(p: string)
    requires WellFormed(p)
    ensures PathOf(Names(p)) == p
    decreases |p|
  {
    if p == "/" {
      assert p[..0] == "";
    } else {
      ChildOfParent(p);
      var up, name := Parent(p), p[|Parent(p)|..|p| - 1];
      PathOfNames(up);
      NamesOf(up[..|up| - 1], name);
      NamesOf(up + name, name);
      assert up == up[..|up| - 1] + "/";
      assert Child(up, name) == up + name + "/";
      assert Names(p) == Names(up) + [name];
    }
  }

  /** The server's answer, for every absolute path: the directory path of the same names. */
  lemma AnswerIsPath(p: string)
    requires p != "" && p[0] == '/'
    ensures Answered(p) == PathOf(Names(p))
  {
    CollapseKeepsNames(p);
    AnswerIsWellFormed(p);
    PathOfNames(Answered(p));
    AnswerIsCollapsed(p);
    NamesStep(Collapse(p), '/');
    hide Names;
    hide Collapse;
  }

  lemma AnswerIsCollapsed(p: string)
    requires p != "" && p[0] == '/'
    ensures Answered(p) == Collapse(p) || Answered(p) == Collapse(p) + ['/']
  {
    CollapseIs(p);
    hide Collapse;
    var q := Collapse(p);
    assert q[|q| - 1] == '/' ==> q == q[..|q| - 1] + "/";
  }

  // ---------------------------------------------------------------- the state

  datatype Request = Request(selected: string, path: string)

  /** The globals `dbOrPath`, `filePath` and `anrPath`, and the listing requests under way. */
  datatype Nav = Nav(selected: string, filePath: string, anrPath: string, pending: seq<Request>)

  /** `Response(i)` is the arrival of the answer to the i-th pending request; they may arrive in
      any order, and after the selection has changed. */
  datatype Event =
    | Load(pathname: string)
    | Select(db: string)
    | Enter(path: string, isFile: bool)
    | Back
    | Response(i: nat)

  const START: Nav := Nav("", "/", ANR_ROOT, [])

  function CurrentPath(n: Nav): string {
    if n.selected == ANR then n.anrPath else n.filePath
  }

  /** `refreshFileList` */
  function Refresh(n: Nav): Nav {
    n.(pending := n.pending + [Request(n.selected, CurrentPath(n))])
  }

  /** The assignment shared by `enterFile` and `handleFileList`: to the path of the selection. */
  function SetPath(n: Nav, path: string): Nav {
    if n.selected == STORAGE then n.(filePath := path)
    else if n.selected == ANR then n.(anrPath := path)
    else n
  }

  /** `openDatabaseAndGetTableList`, as far as it concerns directories. */
  function SelectDb(n: Nav, db: string): Nav {
    if db == STORAGE || db == ANR then Refresh(n.(selected := db)) else n.(selected := db)
  }

  /** The page was opened on a directory: its path has a slash after the first character. */
  predicate IsLoadDir(pathname: string) {
    exists i :: 1 <= i < |pathname| && pathname[i] == '/'
  }

  function Step(n: Nav, e: Event): Nav {
    match e
    case Load(pathname) => if IsLoadDir(pathname) then SelectDb(n.(filePath := pathname), STORAGE) else n
    case Select(db) => SelectDb(n, db)
    case Enter(path, isFile) => if isFile then n else Refresh(SetPath(n, path))
    case Back =>
      if n.selected == STORAGE && n.filePath != "/" then Refresh(n.(filePath := Parent(n.filePath)))
      else if n.selected == ANR && n.anrPath != ANR_ROOT then Refresh(n.(anrPath := Parent(n.anrPath)))
      else n
    case Response(i) =>
      if i >= |n.pending| then n else
      SetPath(n.(pending := n.pending[..i] + n.pending[i + 1..]), Answered(n.pending[i].path))
  }

  function Run(n: Nav, es: seq<Event>): Nav {
    if es == [] then n else Step(Run(n, es[..|es| - 1]), es[|es| - 1])
  }

  // ---------------------------------------------------------------- invariant

  predicate GoodPath(selected: string, path: string) {
    WellFormed(path) && (selected == ANR ==> ANR_ROOT <= path)
  }

  /** Both paths are well formed and the ANR path stays in its directory. */
  predicate Good(n: Nav) {
    GoodPath(STORAGE, n.filePath) && GoodPath(ANR, n.anrPath)
  }

  /** Every pending request asked for a path that was good for its selection. */
  predicate PendingGood(n: Nav) {
    forall i :: 0 <= i < |n.pending| ==> GoodPath(n.pending[i].selected, n.pending[i].path)
  }

  /** A directory opened or entered is one that its selection can show, and a response that
      arrives under ANR is for a path of the ANR directory. */
  predicate Admissible(n: Nav, e: Event) {
    match e
    case Load(pathname) => IsLoadDir(pathname) ==> WellFormed(pathname)
    case Enter(path, false) => (n.selected == STORAGE || n.selected == ANR) ==> GoodPath(n.selected, path)
    case Response(i) => i < |n.pending| && n.selected == ANR ==> ANR_ROOT <= n.pending[i].path
    case _ => true
  }

  lemma RootsAreGood()
    ensures WellFormed("/") && WellFormed(ANR_ROOT) && ANR_ROOT == "/data/anr/"
  {
  }

  lemma BackKeepsGood(n: Nav)
    requires Good(n) && PendingGood(n)
    ensures Good(Step(n, Back)) && PendingGood(Step(n, Back))
  {
    RootsAreGood();
    if n.selected == STORAGE && n.filePath != "/" {
      ChildOfParent(n.filePath);
    } else if n.selected == ANR && n.anrPath != ANR_ROOT {
      ParentStaysUnder(ANR_ROOT, n.anrPath);
      ChildOfParent(n.anrPath);
    }
  }

  lemma ResponseSets(n: Nav, i: nat)
    requires PendingGood(n) && i < |n.pending|
    ensures Step(n, Response(i)) == SetPath(n.(pending := n.pending[..i] + n.pending[i + 1..]), n.pending[i].path)
    ensures PendingGood(Step(n, Response(i)))
  {
    AnswerIsWellFormed(n.pending[i].path);
  }

  /** A step keeps the invariant exactly when it is admissible: of all that can happen, only
      opening or entering a path that does not belong to the selection, and a response that comes
      after the selection has moved to ANR, break it. */
  lemma GoodIffAdmissible(n: Nav, e: Event)
    requires Good(n) && PendingGood(n)
    ensures Good(Step(n, e)) && PendingGood(Step(n, e)) <==> Admissible(n, e)
  {
    hide Answered;
    match e
    case Load(pathname) =>
    case Select(db) =>
    case Enter(path, isFile) =>
    case Back => BackKeepsGood(n);
    case Response(i) =>
      if i < |n.pending| {
        ResponseSets(n, i);
      }
  }

  predicate AllAdmissible(n: Nav, es: seq<Event>) {
    forall i :: 0 <= i < |es| ==> Admissible(Run(n, es[..i]), es[i])
  }

  /** Over every run of admissible events the paths stay good. */
  lemma {:induction false} RunStaysGood(n: Nav, es: seq<Event>)
    requires Good(n) && PendingGood(n) && AllAdmissible(n, es)
    ensures Good(Run(n, es)) && PendingGood(Run(n, es))
  {
    if es != [] {
      var before := es[..|es| - 1];
      forall i | 0 <= i < |before|
        ensures Admissible(Run(n, before[..i]), before[i])
      {
        assert before[..i] == es[..i];
      }
      RunStaysGood(n, before);
      GoodIffAdmissible(Run(n, before), es[|es| - 1]);
    }
  }

  lemma StartIsGood()
    ensures Good(START) && PendingGood(START)
  {
    RootsAreGood();
  }

  /** What can be asked of one event without knowing the state: it does not turn to ANR, and a
      directory opened or entered is written as one. */
  predicate StaysInStorage(e: Event) {
    match e
    case Load(pathname) => WellFormed(pathname)
    case Select(db) => db != ANR
    case Enter(path, isFile) => isFile || WellFormed(path)
    case Back => true
    case Response(_) => true
  }

  lemma {:induction false} SelectionStays(n: Nav, es: seq<Event>)
    requires n.selected != ANR && forall i :: 0 <= i < |es| ==> StaysInStorage(es[i])
    ensures Run(n, es).selected != ANR
  {
    hide Answered;
    hide WellFormed;
    hide Parent;
    if es != [] {
      SelectionStays(n, es[..|es| - 1]);
    }
  }

  /** From the page as it starts, every run that never turns to ANR and opens only well-formed
      directories keeps both paths good, whatever order the responses arrive in. */
  lemma RunFromStart(es: seq<Event>)
    requires forall i :: 0 <= i < |es| ==> StaysInStorage(es[i])
    ensures Good(Run(START, es)) && PendingGood(Run(START, es))
  {
    hide WellFormed;
    StartIsGood();
    forall i | 0 <= i < |es|
      ensures Admissible(Run(START, es[..i]), es[i])
    {
      SelectionStays(START, es[..i]);
      assert StaysInStorage(es[i]);
    }
    RunStaysGood(START, es);
  }

  // ---------------------------------------------------------------- what is requested

  /** The events that make a request: opening the page on a directory, selecting Storage or ANR,
      entering a directory, and going back from anywhere but the selection's root. */
  predicate Requests(n: Nav, e: Event) {
    match e
    case Load(pathname) => pathname != "" && '/' in pathname[1..]
    case Select(db) => db == "Storage" || db == "ANR"
    case Enter(_, isFile) => !isFile
    case Back => (n.selected == "Storage" && n.filePath != "/") || (n.selected == "ANR" && n.anrPath != "/data/anr/")
    case Response(_) => false
  }

  lemma LoadsDirectory(pathname: string)
    ensures IsLoadDir(pathname) <==> pathname != "" && '/' in pathname[1..]
  {
    if pathname != "" && '/' in pathname[1..] {
      var i :| 0 <= i < |pathname| - 1 && pathname[1..][i] == '/';
      assert pathname[i + 1] == '/';
    }
  }

  /** Exactly these events make one, and it asks for the path that the page then shows. */
  lemma RequestIsForShown(n: Nav, e: Event)
    requires !e.Response?
    ensures var after := Step(n, e);
            after.pending == if Requests(n, e)
                             then n.pending + [Request(after.selected,
                                                       if after.selected == "ANR" then after.anrPath
                                                       else after.filePath)]
                             else n.pending
  {
    hide Parent;
    if e.Load? {
      LoadsDirectory(e.pathname);
    }
    hide IsLoadDir;
  }

  /** And its answer leaves the page there. */
  lemma AnswerStays(n: Nav, e: Event)
    requires Requests(n, e) && Good(Step(n, e))
    requires Step(n, e).selected == "Storage" || Step(n, e).selected == "ANR"
    ensures Step(Step(n, e), Response(|n.pending|)) == Step(n, e).(pending := n.pending)
  {
    hide Answered;
    RequestIsForShown(n, e);
    var after := Step(n, e);
    hide Step;
    AnswerOfGood(after);
    RespondsToLast(after, n.pending);
  }

  lemma RespondsToLast(n: Nav, before: seq<Request>)
    requires n.selected == STORAGE || n.selected == ANR
    requires n.pending == before + [Request(n.selected, CurrentPath(n))] && Answered(CurrentPath(n)) == CurrentPath(n)
    ensures Step(n, Response(|before|)) == n.(pending := before)
  {
    hide Answered;
    assert n.pending[..|before|] == before;
  }

  /** A click on Back and the answer to the request it makes: the page shows the parent. */
  lemma BackShowsParent(n: Nav, p: string, name: string)
    requires Good(n) && WellFormed(p) && Name(name)
    requires (n.selected == "Storage" && n.filePath == p + name + "/")
          || (n.selected == "ANR" && n.anrPath == p + name + "/" && "/data/anr/" <= p)
    ensures var after := Step(Step(n, Back), Response(|n.pending|));
            && after.selected == n.selected && after.pending == n.pending
            && (if n.selected == "ANR" then after.anrPath else after.filePath) == p
  {
    ParentOfChild(p, name);
    RootsAreGood();
    assert |p + name + "/"| > |p|;
    assert Requests(n, Back);
    assert Parent(p + name + "/") == p;
    assert Step(n, Back).selected == n.selected;
    hide Parent;
    hide WellFormed;
    AnswerStays(n, Back);
  }

  /** A click on a directory likewise: the page shows it. */
  lemma EnterShowsDirectory(n: Nav, path: string)
    requires Good(n) && WellFormed(path)
    requires n.selected == "Storage" || (n.selected == "ANR" && "/data/anr/" <= path)
    ensures var after := Step(Step(n, Enter(path, false)), Response(|n.pending|));
            && after.selected == n.selected && after.pending == n.pending
            && (if n.selected == "ANR" then after.anrPath else after.filePath) == path
  {
    hide WellFormed;
    AnswerStays(n, Enter(path, false));
  }

  /** And a selection: the page shows the path that the selection was left at. Any other database
      concerns no directory. */
  lemma SelectShowsPath(n: Nav, db: string)
    requires Good(n)
    ensures db == "Storage" || db == "ANR" ==>
              Step(Step(n, Select(db)), Response(|n.pending|)) == n.(selected := db)
    ensures !(db == "Storage" || db == "ANR") ==> Step(n, Select(db)) == n.(selected := db)
  {
    hide WellFormed;
    if db == "Storage" || db == "ANR" {
      AnswerStays(n, Select(db));
    }
  }

  /** And a page opened on a directory: Storage is selected and shows it. */
  lemma LoadShowsDirectory(n: Nav, pathname: string)
    requires Good(n) && WellFormed(pathname) && pathname != "/"
    ensures Step(Step(n, Load(pathname)), Response(|n.pending|))
         == n.(selected := "Storage", filePath := pathname)
  {
    assert pathname[1..][|pathname| - 2] == '/';
    LoadsDirectory(pathname);
    hide WellFormed;
    hide IsLoadDir;
    AnswerStays(n, Load(pathname));
  }

  // ---------------------------------------------------------------- the rows of a listing

  datatype FileKind = Directory | PlainFile | Other

  /** The part of a row that its link passes to `enterFile`. */
  datatype Row = Row(link: string, isFile: bool)

  /** `buildFileRow`, for the entry `name` of the directory that the listing of `dir` shows: only a
      directory's link ends in a slash, and only a plain file is marked as a file. */
  function BuildFileRow(dir: string, name: string, kind: FileKind): Row {
    var path := Answered(dir) + name;
    Row(if kind == Directory then path + "/" else path, kind == PlainFile)
  }

  lemma NotADirectory(p: string, name: string)
    requires Name(name)
    ensures !WellFormed(p + name)
  {
    assert (p + name)[|p + name| - 1] == name[|name| - 1];
    assert name[|name| - 1] in name;
  }

  /** A click on a row of the listing shown keeps the paths good exactly when the entry is a directory
      or a plain file. A device or a socket is neither, and its row is entered like a directory. */
  lemma RowIsGoodIff(n: Nav, name: string, kind: FileKind)
    requires Good(n) && PendingGood(n) && (n.selected == STORAGE || n.selected == ANR) && Name(name)
    ensures var row := BuildFileRow(CurrentPath(n), name, kind);
            var after := Step(n, Enter(row.link, row.isFile));
            && (Good(after) && PendingGood(after) <==> kind != Other)
            && (kind == Directory ==> CurrentPath(after) == Child(CurrentPath(n), name))
            && (kind == PlainFile ==> after == n && row.link == CurrentPath(n) + name)
  {
    hide Step;
    hide WellFormed;
    hide Good;
    hide PendingGood;
    hide Answered;
    hide Name;
    hide CurrentPath;
    var path, row := CurrentPath(n), BuildFileRow(CurrentPath(n), name, kind);
    AnswerOfGood(n);
    ParentOfChild(path, name);
    ChildIsUnder(ANR_ROOT, path, name);
    NotADirectory(path, name);
    GoodIffAdmissible(n, Enter(row.link, row.isFile));
    EnterShows(n, row.link, row.isFile);
  }

  lemma ChildIsUnder(root: string, p: string, name: string)
    ensures root <= p ==> root <= Child(p, name)
  {
  }

  lemma AnswerOfGood(n: Nav)
    requires Good(n) && (n.selected == STORAGE || n.selected == ANR)
    ensures WellFormed(CurrentPath(n)) && Answered(CurrentPath(n)) == CurrentPath(n)
    ensures n.selected == ANR ==> ANR_ROOT <= CurrentPath(n)
  {
    hide Answered;
    AnswerIsWellFormed(CurrentPath(n));
  }

  lemma EnterShows(n: Nav, path: string, isFile: bool)
    requires n.selected == STORAGE || n.selected == ANR
    ensures var after := Step(n, Enter(path, isFile));
            if isFile then after == n else CurrentPath(after) == path
  {
  }

  /** Any other entry that is clicked becomes the current path without a slash at its end, and the
      server's answer then shows it as if it were a directory. */
  lemma OtherIsEntered(n: Nav, name: string)
    requires Good(n) && PendingGood(n) && (n.selected == STORAGE || n.selected == ANR) && Name(name)
    ensures var row := BuildFileRow(CurrentPath(n), name, Other);
            var after := Step(n, Enter(row.link, row.isFile));
            && CurrentPath(after) == CurrentPath(n) + name && !WellFormed(CurrentPath(after))
            && CurrentPath(Step(after, Response(|n.pending|))) == Child(CurrentPath(n), name)
  {
    hide Answered;
    hide WellFormed;
    AnswerOfGood(n);
    NotADirectory(CurrentPath(n), name);
    AnswerOfEntry(CurrentPath(n), name);
  }

  lemma AnswerOfEntry(p: string, name: string)
    requires WellFormed(p) && Name(name)
    ensures Answered(p + name) == Child(p, name)
  {
    CollapseIs(p + name);
    forall i | 0 < i < |p + name|
      ensures !((p + name)[i - 1] == '/' && (p + name)[i] == '/')
    {
      if i >= |p| {
        assert (p + name)[i] == name[i - |p|] && name[i - |p|] in name;
      }
    }
    NotADirectory(p, name);
  }

  /** While one of the two is selected nothing that happens changes the other's path, apart from
      opening the page on a directory. */
  lemma SelectionsDoNotMix(n: Nav, e: Event)
    requires !e.Load?
    ensures n.selected != ANR ==> Step(n, e).anrPath == n.anrPath
    ensures n.selected != STORAGE ==> Step(n, e).filePath == n.filePath
  {
  }

  /** Going back undoes entering a child, for either selection. */
  lemma BackUndoesEnter(n: Nav, name: string)
    requires Good(n) && (n.selected == STORAGE || n.selected == ANR) && Name(name)
    ensures var after := Step(Step(n, Enter(Child(CurrentPath(n), name), false)), Back);
            after.filePath == n.filePath && after.anrPath == n.anrPath && after.selected == n.selected
  {
    var path := CurrentPath(n);
    ParentOfChild(path, name);
    RootsAreGood();
    assert |Child(path, name)| > |path|;
  }

  function Backs(k: nat): seq<Event> {
    seq(k, _ => Back)
  }

  lemma {:induction false} BackFromLast(root: string, p: string, k: nat)
    requires k > 0
    ensures var q := BackFrom(root, p, k - 1);
            BackFrom(root, p, k) == if q == root then q else Parent(q)
  {
    if k > 1 {
      BackFromLast(root, if p == root then p else Parent(p), k - 1);
    }
  }

  function RootOf(selected: string): string {
    if selected == ANR then ANR_ROOT else "/"
  }

  lemma BackMoves(n: Nav)
    requires n.selected == STORAGE || n.selected == ANR
    ensures var root, path, after := RootOf(n.selected), CurrentPath(n), Step(n, Back);
            after.selected == n.selected && CurrentPath(after) == if path == root then path else Parent(path)
  {
  }

  lemma {:induction false} BacksMove(n: Nav, k: nat)
    requires n.selected == STORAGE || n.selected == ANR
    ensures var after := Run(n, Backs(k));
            after.selected == n.selected && CurrentPath(after) == BackFrom(RootOf(n.selected), CurrentPath(n), k)
  {
    hide Step;
    hide Parent;
    if k > 0 {
      BacksMove(n, k - 1);
      BackMoves(Run(n, Backs(k - 1)));
      BackFromLast(RootOf(n.selected), CurrentPath(n), k);
      assert Backs(k)[..k - 1] == Backs(k - 1);
    }
  }

  /** Steps back in the page lead to the root of the selection, `/` for Storage and the ANR
      directory for ANR, after as many steps as there are directories below it, and stay there. */
  lemma BacksReachRoot(n: Nav, k: nat)
    requires Good(n) && (n.selected == STORAGE || n.selected == ANR)
    ensures var root, path := RootOf(n.selected), CurrentPath(n);
            CurrentPath(Run(n, Backs(k))) == root <==> k >= Slashes(path) - Slashes(root)
  {
    RootsAreGood();
    BackReachesRoot(RootOf(n.selected), CurrentPath(n), k);
    BacksMove(n, k);
  }

  // ---------------------------------------------------------------- responses in order

  /** All pending responses arrive, in the order of their requests. */
  function Deliver(n: Nav): Nav
    decreases |n.pending|
  {
    if n.pending == [] then n else Deliver(Step(n, Response(0)))
  }

  /** When the pending requests are all of the present selection and the last one is for the path
      now shown, responses in order leave that path in place. */
  lemma {:induction false} DeliveredInOrder(n: Nav)
    requires PendingGood(n) && (n.selected == STORAGE || n.selected == ANR) && n.pending != []
    requires n.pending[|n.pending| - 1].path == CurrentPath(n)
    ensures CurrentPath(Deliver(n)) == CurrentPath(n)
    decreases |n.pending|
  {
    hide Answered;
    DeliverEndsAtLast(n);
  }

  lemma {:induction false} DeliverEndsAtLast(n: Nav)
    requires PendingGood(n) && (n.selected == STORAGE || n.selected == ANR) && n.pending != []
    ensures CurrentPath(Deliver(n)) == n.pending[|n.pending| - 1].path
    decreases |n.pending|
  {
    hide Answered;
    ResponseSets(n, 0);
    var next := Step(n, Response(0));
    assert next.pending == n.pending[1..];
    if next.pending != [] {
      DeliverEndsAtLast(next);
    }
  }

  // ---------------------------------------------------------------- responses in any order

  /** The path of the last request made. */
  function LastAsked(n: Nav, es: seq<Event>): string {
    if es == [] then if n.pending == [] then CurrentPath(n) else n.pending[|n.pending| - 1].path
    else
      var before, after := Run(n, es[..|es| - 1]), Run(n, es);
      if |after.pending| > |before.pending| then after.pending[|after.pending| - 1].path
      else LastAsked(n, es[..|es| - 1])
  }

  /** The path of the request that the last response to arrive answers. */
  function LastAnswered(n: Nav, es: seq<Event>): Option<string> {
    if es == [] then None
    else
      var before, e := Run(n, es[..|es| - 1]), es[|es| - 1];
      if e.Response? && e.i < |before.pending| then Some(before.pending[e.i].path)
      else LastAnswered(n, es[..|es| - 1])
  }

  /** The page is not loaded anew and the selection stays what it is; selecting it again lists it
      again. */
  predicate OneSelection(selected: string, es: seq<Event>) {
    forall i :: 0 <= i < |es| ==> !es[i].Load? && (es[i].Select? ==> es[i].db == selected)
  }

  /** What a step that leaves no request pending can have been. */
  lemma QuietStep(n: Nav, e: Event)
    requires n.selected == STORAGE || n.selected == ANR
    requires !e.Load? && (e.Select? ==> e.db == n.selected)
    ensures var after := Step(n, e);
            && after.selected == n.selected
            && (after.pending == [] ==>
                  if e.Response? && e.i < |n.pending|
                  then CurrentPath(after) == Answered(n.pending[e.i].path)
                  else after == n)
  {
    hide Answered;
    hide Parent;
  }

  /** Once no request is pending, the path shown is the answer to whichever response came last. */
  lemma {:induction false} LastAnswerStays(n: Nav, es: seq<Event>)
    requires n.selected == STORAGE || n.selected == ANR
    requires OneSelection(n.selected, es)
    ensures var after := Run(n, es);
            && after.selected == n.selected
            && (after.pending == [] && LastAnswered(n, es).Some? ==>
                  CurrentPath(after) == Answered(LastAnswered(n, es).value))
  {
    hide Answered;
    hide Step;
    hide CurrentPath;
    if es != [] {
      LastAnswerStays(n, es[..|es| - 1]);
      QuietStep(Run(n, es[..|es| - 1]), es[|es| - 1]);
    }
  }

  lemma {:induction false} LastAnsweredIsGood(n: Nav, es: seq<Event>)
    requires Good(n) && PendingGood(n) && AllAdmissible(n, es)
    ensures LastAnswered(n, es).Some? ==> WellFormed(LastAnswered(n, es).value)
  {
    hide Step;
    hide Admissible;
    hide WellFormed;
    if es != [] {
      var before := es[..|es| - 1];
      assert forall i :: 0 <= i < |before| ==> before[..i] == es[..i];
      RunStaysGood(n, before);
      LastAnsweredIsGood(n, before);
    }
  }

  /** Any run under one selection, clicks and responses in any order, that leaves no request pending:
      the page shows the directory that was asked for last if and only if the last response to arrive
      was one for it. */
  lemma LastAskedShownIff(n: Nav, es: seq<Event>)
    requires Good(n) && PendingGood(n) && AllAdmissible(n, es)
    requires (n.selected == STORAGE || n.selected == ANR) && OneSelection(n.selected, es)
    requires Run(n, es).pending == [] && LastAnswered(n, es).Some?
    ensures CurrentPath(Run(n, es)) == LastAsked(n, es) <==> LastAnswered(n, es) == Some(LastAsked(n, es))
  {
    hide *;
    LastAnswerStays(n, es);
    LastAnsweredIsGood(n, es);
    GoodAnswer(LastAnswered(n, es).value);
  }

  lemma GoodAnswer(p: string)
    requires WellFormed(p)
    ensures Answered(p) == p
  {
    hide Answered;
    AnswerIsWellFormed(p);
  }

  /** Two directories entered one after the other, with the answers overtaking each other: the page
      ends up in the first one. */
  lemma OvertakenExample(n: Nav, p: string, q: string)
    requires n.selected == STORAGE && n.pending == [] && WellFormed(p) && WellFormed(q)
    ensures var es := [Enter(p, false), Enter(q, false), Response(1), Response(0)];
            && LastAsked(n, es) == q && LastAnswered(n, es) == Some(p)
            && Run(n, es).pending == [] && CurrentPath(Run(n, es)) == p
  {
    hide *;
    var es := [Enter(p, false), Enter(q, false), Response(1), Response(0)];
    RunOneMore(n, es, 0);
    RunOneMore(n, es, 1);
    RunOneMore(n, es, 2);
    RunOneMore(n, es, 3);
    OvertakenSteps(n, p, q);
  }

  lemma OvertakenSteps(n: Nav, p: string, q: string)
    requires n.selected == STORAGE && n.pending == [] && WellFormed(p) && WellFormed(q)
    ensures var first, both := [Request(STORAGE, p)], [Request(STORAGE, p), Request(STORAGE, q)];
            && Step(n, Enter(p, false)) == n.(filePath := p, pending := first)
            && Step(n.(filePath := p, pending := first), Enter(q, false)) == n.(filePath := q, pending := both)
            && Step(n.(filePath := q, pending := both), Response(1)) == n.(filePath := q, pending := first)
            && Step(n.(filePath := q, pending := first), Response(0)) == n.(filePath := p)
            && CurrentPath(n.(filePath := p)) == p
  {
    GoodAnswer(p);
    GoodAnswer(q);
    hide Answered;
    hide WellFormed;
    hide Parent;
    var both := [Request(STORAGE, p), Request(STORAGE, q)];
    assert both[..1] + both[2..] == [Request(STORAGE, p)];
    ResponseInStorage(n.(filePath := q, pending := both), 1);
    ResponseInStorage(n.(filePath := q, pending := [Request(STORAGE, p)]), 0);
  }

  lemma ResponseInStorage(n: Nav, i: nat)
    requires n.selected == STORAGE && i < |n.pending|
    ensures Step(n, Response(i)) == n.(filePath := Answered(n.pending[i].path),
                                       pending := n.pending[..i] + n.pending[i + 1..])
  {
    hide Answered;
  }

  lemma RunOneMore(n: Nav, es: seq<Event>, k: nat)
    requires k < |es|
    ensures es[..|es|] == es && Run(n, es[..0]) == n
    ensures Run(n, es[..k + 1]) == Step(Run(n, es[..k]), es[k])
    ensures LastAnswered(n, es[..k + 1])
         == if es[k].Response? && es[k].i < |Run(n, es[..k]).pending| then Some(Run(n, es[..k]).pending[es[k].i].path)
            else LastAnswered(n, es[..k])
    ensures LastAsked(n, es[..k + 1])
         == var before, after := Run(n, es[..k]), Run(n, es[..k + 1]);
            if |after.pending| > |before.pending| then after.pending[|after.pending| - 1].path
            else LastAsked(n, es[..k])
  {
    assert es[..k + 1][..k] == es[..k];
  }

  // ---------------------------------------------------------------- responses to another selection

  /** A response that comes after the selection moved from Storage to ANR sets the ANR path to the
      Storage one; the next step back then leaves it empty. */
  lemma StaleResponseExample()
    ensures var es := [Select(STORAGE), Select(ANR), Response(0), Back];
            && Run(START, es[..3]).anrPath == "/"
            && Run(START, es).anrPath == ""
  {
    var es := [Select(STORAGE), Select(ANR), Response(0), Back];
    RootsAreGood();
    var one, two := Step(START, es[0]), Step(Step(START, es[0]), es[1]);
    assert two.pending == [Request(STORAGE, "/"), Request(ANR, ANR_ROOT)];
    AnswerIsWellFormed("/");
    var three := Step(two, es[2]);
    assert three.anrPath == "/";
    assert es[..0] == [] && es[..1][..0] == [] && es[..2][..1] == es[..1] && es[..3][..2] == es[..2];
    assert Run(START, es[..1]) == one;
    assert Run(START, es[..2]) == two;
    assert Run(START, es[..3]) == three;
    assert Parent("/") == "" by {
      assert "/"[..0] == "";
    }
    assert es[..4] == es;
  }

  // ---------------------------------------------------------------- the page

  /** The globals of app.js. */
  class Page {
    var dbOrPath: string
    var filePath: string
    var anrPath: string
    var pending: seq<Request>
    var windows: seq<string>

    constructor ()
      ensures State() == START == Nav("", "/", "/data/anr/", []) && windows == []
    {
      dbOrPath, filePath, anrPath := "", "/", ANR_ROOT;
      pending, windows := [], [];
    }

    ghost function State(): Nav
      reads this
    {
      Nav(dbOrPath, filePath, anrPath, pending)
    }

    method RefreshFileList()
      modifies this`pending
      ensures State() == Refresh(old(State()))
    {
      var path := filePath;
      if ANR == dbOrPath {
        path := anrPath;
      }
      pending := pending + [Request(dbOrPath, path)];
    }

    method OpenDatabaseAndGetTableList(db: string)
      modifies this`dbOrPath, this`pending
      ensures State() == Step(old(State()), Select(db))
    {
      dbOrPath := db;
      if STORAGE == db || ANR == db {
        RefreshFileList();
      }
    }

    method LoadPage(pathname: string)
      modifies this`dbOrPath, this`filePath, this`pending
      ensures State() == Step(old(State()), Load(pathname))
    {
      if IsLoadDir(pathname) {
        filePath := pathname;
        OpenDatabaseAndGetTableList(STORAGE);
      }
    }

    method EnterFile(path: string, isFile: bool)
      modifies this
      ensures State() == Step(old(State()), Enter(path, isFile))
      ensures windows == if isFile then old(windows) + [path] else old(windows)
    {
      if isFile {
        windows := windows + [path];
      } else {
        if STORAGE == dbOrPath {
          filePath := path;
        } else if ANR == dbOrPath {
          anrPath := path;
        }
        RefreshFileList();
      }
    }

    method BackDirPath()
      modifies this`filePath, this`anrPath, this`pending
      ensures State() == Step(old(State()), Back)
    {
      if STORAGE == dbOrPath && "/" != filePath {
        var index := LastSlash(if filePath == "" then "" else filePath[..|filePath| - 1]);
        filePath := filePath[..index + 1];
        RefreshFileList();
      } else if ANR == dbOrPath && ANR_ROOT != anrPath {
        var index := LastSlash(if anrPath == "" then "" else anrPath[..|anrPath| - 1]);
        anrPath := anrPath[..index + 1];
        RefreshFileList();
      }
    }

    /** The answer to a pending request arrives. */
    method HandleFileList(i: nat)
      requires i < |pending|
      modifies this`filePath, this`anrPath, this`pending
      ensures State() == Step(old(State()), Response(i))
    {
      var path := Answered(pending[i].path);
      pending := pending[..i] + pending[i + 1..];
      if STORAGE == dbOrPath {
        filePath := path;
      } else if ANR == dbOrPath {
        anrPath := path;
      }
    }
  }
}
