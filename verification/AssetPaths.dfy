/** From a request path to a file under the assets root: the parser, the name
    validators, and the cleaning join of path/filepath on Unix. */
module AssetPaths {
  import opened Wrappers
  import opened Text

  // ---------------------------------------------------------------- request paths

  const PREFIX: string := "/assets/"

  function ParseAssetPath(path: string): Option<(string, string)> {
    if !(PREFIX <= path) then None
    else
      var rest := path[|PREFIX|..];
      var i := Find(rest, '/');
      if i == |rest| then None else Some((rest[..i], rest[i + 1..]))
  }

  function PrintAssetPath(id: string, file: string): string {
    PREFIX + id + "/" + file
  }

  /** The accepted paths are exactly the prints, and parsing undoes printing. */
  lemma {:induction false} ParseIsInverseOfPrint(path: string, id: string, file: string)
    ensures ParseAssetPath(path) == Some((id, file)) <==> '/' !in id && path == "/assets/" + id + "/" + file
  {
    hide Find;
    if ParseAssetPath(path) == Some((id, file)) {
      var rest := path[|PREFIX|..];
      var i := Find(rest, '/');
      assert rest == rest[..i] + "/" + rest[i + 1..];
      assert path == PREFIX + rest;
    }
    if '/' !in id && path == PrintAssetPath(id, file) {
      var rest := path[|PREFIX|..];
      assert rest == id + "/" + file;
      FindAfter(id, '/', file);
      assert rest[..|id|] == id && rest[|id| + 1..] == file;
    }
  }

  lemma {:induction false} ParseOfPrint(path: string, id: string, file: string)
    ensures ParseAssetPath(path) == Some((id, file)) <==> '/' !in id && path == PrintAssetPath(id, file)
  {
    hide ParseAssetPath;
    ParseIsInverseOfPrint(path, id, file);
  }

  // ---------------------------------------------------------------- validators

  predicate IdChar(c: char) {
    'a' <= c <= 'z' || 'A' <= c <= 'Z' || '0' <= c <= '9' || c == '_' || c == '-'
  }

  predicate ValidAssetId(id: string) {
    1 <= |id| <= 128 && forall i :: 0 <= i < |id| ==> IdChar(id[i])
  }

  predicate OccursAt(s: string, t: string, i: nat) {
    i + |t| <= |s| && s[i..i + |t|] == t
  }

  predicate Contains(s: string, t: string) {
    exists i: nat | i <= |s| :: OccursAt(s, t, i)
  }

  predicate ValidFilename(name: string) {
    && name != "" && !Contains(name, "..") && !Contains(name, "/") && !Contains(name, "\\")
    && 1 <= |name| <= 256 && forall i :: 0 <= i < |name| ==> IdChar(name[i]) || name[i] == '.'
  }

  function Lower(s: string): (r: string)
    ensures |r| == |s|
    ensures forall i :: 0 <= i < |s| ==>
              if 'A' <= s[i] <= 'Z' then 'a' <= r[i] <= 'z' && r[i] - 'a' == s[i] - 'A' else r[i] == s[i]
  {
    if s == "" then ""
    else [if 'A' <= s[0] <= 'Z' then (s[0] as int + 32) as char else s[0]] + Lower(s[1..])
  }

  /** filepath.Ext on a name without slashes: from the last dot on. */
  function Ext(name: string): (e: string)
    ensures |e| <= |name| && e == name[|name| - |e|..]
    ensures e == "" ==> '.' !in name
    ensures e != "" ==> e[0] == '.' && '.' !in e[1..]
  {
    if name == "" then ""
    else if '.' in name[1..] then
      var e := Ext(name[1..]);
      assert name[1..][|name| - 1 - |e|..] == name[|name| - |e|..];
      e
    else if name[0] == '.' then name else ""
  }

  /** The lower-case extension of a servable file. */
  function ValidExtension(name: string): Option<string> {
    var ext := Lower(Ext(name));
    if ext in {".m3u8", ".ts", ".m4s"} then Some(ext)
    else if ext == ".mp4" then
      var base := Lower(name);
      if base == "init.mp4" || ("init-" <= base && |base| > |"init-.mp4"|) then Some(ext) else None
    else None
  }

  /** A served name and its extension: the name ends in the extension, in capitals or not, and
      of the .mp4 files only init.mp4 and init-*.mp4 are served. */
  predicate HasServedExtension(name: string, ext: string) {
    && ext in {".m3u8", ".ts", ".m4s", ".mp4"}
    && |ext| <= |name| && Lower(name[|name| - |ext|..]) == ext
    && (ext == ".mp4" ==> Lower(name) == "init.mp4" || (|name| > 9 && Lower(name)[..5] == "init-"))
  }

  /** The validator answers the extension of a served name, and nothing for other names. */
  lemma {:induction false} ExtensionMeans(name: string, ext: string)
    ensures ValidExtension(name) == Some(ext) <==> HasServedExtension(name, ext)
  {
    hide Lower, Ext;
    if HasServedExtension(name, ext) {
      DottedEnd(name, ext);
      PrefixBySlice("init-", Lower(name));
    }
    if ValidExtension(name) == Some(ext) {
      PrefixBySlice("init-", Lower(name));
    }
  }

  lemma PrefixBySlice(prefix: string, s: string)
    ensures prefix <= s <==> |prefix| <= |s| && s[..|prefix|] == prefix
  {
  }

  predicate LastDot(name: string, i: int) {
    0 <= i < |name| && name[i] == '.' && forall k :: i < k < |name| ==> name[k] != '.'
  }

  lemma {:induction false} DottedEnd(name: string, ext: string)
    requires ext in {".m3u8", ".ts", ".m4s", ".mp4"} && |ext| <= |name| && Lower(name[|name| - |ext|..]) == ext
    ensures Ext(name) == name[|name| - |ext|..]
  {
    hide Ext, Lower;
    var i, end := |name| - |ext|, name[|name| - |ext|..];
    assert ext[0] == '.' && forall k :: 0 < k < |ext| ==> ext[k] != '.';
    assert end[0] == '.' && forall k :: 0 < k < |end| ==> end[k] != '.';
    assert forall k :: i <= k < |name| ==> name[k] == end[k - i];
    assert LastDot(name, i);
    ExtFromLastDot(name);
  }

  lemma {:induction false} ExtFromLastDot(name: string)
    requires '.' in name
    ensures Ext(name) != "" && LastDot(name, |name| - |Ext(name)|)
  {
    hide Ext;
    var e := Ext(name);
    var j := |name| - |e|;
    assert e != "";
    assert forall k :: j < k < |name| ==> name[k] == e[1..][k - j - 1];
  }

  // ---------------------------------------------------------------- path/filepath

  function JoinSlash(parts: seq<string>): string {
    Text.Join(parts, '/')
  }

  function Push(rooted: bool, stack: seq<string>, part: string): seq<string> {
    if part == "" || part == "." then stack
    else if part == ".." then
      if stack != [] && stack[|stack| - 1] != ".." then stack[..|stack| - 1]
      else if rooted then stack
      else stack + [".."]
    else stack + [part]
  }

  function PushAll(rooted: bool, stack: seq<string>, parts: seq<string>): seq<string>
    decreases |parts|
  {
    if parts == [] then stack else PushAll(rooted, Push(rooted, stack, parts[0]), parts[1..])
  }

  function Render(rooted: bool, stack: seq<string>): string {
    if rooted then "/" + JoinSlash(stack) else if stack == [] then "." else JoinSlash(stack)
  }

  predicate Rooted(path: string) {
    path != "" && path[0] == '/'
  }

  function Stack(path: string): seq<string> {
    PushAll(Rooted(path), [], Split(path, '/'))
  }

  /** filepath.Clean. */
  function Clean(path: string): string {
    Render(Rooted(path), if path == "" then [] else Stack(path))
  }

  /** filepath.Join of two elements. */
  function Join(a: string, b: string): string {
    if a != "" then Clean(a + "/" + b) else if b != "" then Clean(b) else ""
  }

  /** filepath.Abs, given the working directory. */
  function Abs(cwd: string, path: string): string {
    if Rooted(path) then Clean(path) else Join(cwd, path)
  }

  // ---------------------------------------------------------------- cleaned paths

  /** A name that stands for itself as a component. */
  predicate Plain(part: string) {
    part != "" && '/' !in part && part != "." && part != ".."
  }

  /** What a stack can hold: plain names, below leading ".." of a relative path. */
  predicate StackOk(rooted: bool, stack: seq<string>) {
    && (forall i :: 0 <= i < |stack| ==> stack[i] != "" && '/' !in stack[i] && stack[i] != ".")
    && (forall i :: 0 <= i < |stack| && stack[i] == ".." ==> !rooted && forall j :: 0 <= j < i ==> stack[j] == "..")
  }

  lemma {:induction false} PushAllAppend(rooted: bool, stack: seq<string>, a: seq<string>, b: seq<string>)
    ensures PushAll(rooted, stack, a + b) == PushAll(rooted, PushAll(rooted, stack, a), b)
    decreases |a|
  {
    hide Push;
    if a == [] {
      assert a + b == b;
    } else {
      assert (a + b)[1..] == a[1..] + b;
      PushAllAppend(rooted, Push(rooted, stack, a[0]), a[1..], b);
    }
  }

  lemma {:induction false} PushPlain(rooted: bool, stack: seq<string>, part: string)
    requires Plain(part)
    ensures PushAll(rooted, stack, [part]) == stack + [part]
  {
    assert [part][1..] == [];
  }

  lemma {:induction false} PushAllOk(rooted: bool, stack: seq<string>, parts: seq<string>)
    requires StackOk(rooted, stack) && forall i :: 0 <= i < |parts| ==> '/' !in parts[i]
    ensures StackOk(rooted, PushAll(rooted, stack, parts))
    decreases |parts|
  {
    if parts != [] {
      var next := Push(rooted, stack, parts[0]);
      if stack != [] && stack[|stack| - 1] == ".." {
        assert forall j :: 0 <= j < |stack| ==> stack[j] == "..";
      }
      assert StackOk(rooted, next);
      PushAllOk(rooted, next, parts[1..]);
    }
  }

  /** A sound stack is rebuilt by pushing its own parts. */
  lemma {:induction false} PushAllRebuilds(rooted: bool, stack: seq<string>, n: nat)
    requires StackOk(rooted, stack) && n <= |stack|
    ensures PushAll(rooted, [], stack[..n]) == stack[..n]
  {
    if n > 0 {
      PushAllRebuilds(rooted, stack, n - 1);
      PushAllAppend(rooted, [], stack[..n - 1], [stack[n - 1]]);
      assert stack[..n] == stack[..n - 1] + [stack[n - 1]];
      assert [stack[n - 1]][1..] == [];
    }
  }

  lemma {:induction false} StackIsOk(path: string)
    ensures StackOk(Rooted(path), Stack(path))
  {
    SplitHasNoSeparator(path, '/');
    PushAllOk(Rooted(path), [], Split(path, '/'));
  }

  lemma {:induction false} JoinSlashStarts(parts: seq<string>)
    requires parts != [] && parts[0] != "" && '/' !in parts[0]
    ensures JoinSlash(parts) != "" && JoinSlash(parts)[0] != '/'
  {
    assert JoinSlash(parts)[0] == parts[0][0];
  }

  /** Reading a rendered stack back gives the stack. */
  lemma {:induction false} StackOfRender(rooted: bool, stack: seq<string>)
    requires StackOk(rooted, stack) && stack != []
    ensures Rooted(Render(rooted, stack)) == rooted
    ensures Stack(Render(rooted, stack)) == stack
    ensures rooted || Split(Render(rooted, stack), '/') == stack
  {
    hide Split, Push;
    var path := Render(rooted, stack);
    SplitOfJoin(stack, '/');
    JoinSlashStarts(stack);
    PushAllRebuilds(rooted, stack, |stack|);
    assert stack[..|stack|] == stack;
    if rooted {
      assert path == "" + ['/'] + JoinSlash(stack);
      SplitAppend("", '/', JoinSlash(stack));
      SplitPlain("", '/');
      PushAllAppend(true, [], [""], stack);
      PushEmpty(true);
    }
  }

  lemma {:induction false} PushEmpty(rooted: bool)
    ensures PushAll(rooted, [], [""]) == []
  {
    assert [""][1..] == [];
  }

  lemma {:induction false} JoinSlashAppend(parts: seq<string>, part: string)
    requires parts != []
    ensures JoinSlash(parts + [part]) == JoinSlash(parts) + "/" + part
  {
    if |parts| == 1 {
      assert (parts + [part])[1..] == [part];
      assert Text.Join([part], '/') == part;
    } else {
      assert (parts + [part])[1..] == parts[1..] + [part];
      JoinSlashAppend(parts[1..], part);
    }
  }

  /** Cleaning a path with a plain name at its end only cleans what is before it. */
  lemma {:induction false} StackOfAppend(path: string, part: string)
    requires path != "" && Plain(part)
    ensures Rooted(path + "/" + part) == Rooted(path)
    ensures Stack(path + "/" + part) == Stack(path) + [part]
  {
    hide Split, Push;
    SplitAppend(path, '/', part);
    SplitPlain(part, '/');
    PushAllAppend(Rooted(path), [], Split(path, '/'), [part]);
    PushPlain(Rooted(path), Stack(path), part);
  }

  // ---------------------------------------------------------------- what cleaning means

  /** The directory that one component leads to, from a directory given by its names. */
  function Enter(dir: seq<string>, part: string): seq<string> {
    if part == "" || part == "." then dir
    else if part != ".." then dir + [part]
    else if dir == [] then []
    else dir[..|dir| - 1]
  }

  function Walk(dir: seq<string>, parts: seq<string>): seq<string> {
    if parts == [] then dir else Enter(Walk(dir, parts[..|parts| - 1]), parts[|parts| - 1])
  }

  /** Where a path leads from a working directory. */
  function Leads(dir: seq<string>, path: string): seq<string> {
    Walk(if Rooted(path) then [] else dir, Split(path, '/'))
  }

  lemma {:induction false} WalkAppend(dir: seq<string>, a: seq<string>, b: seq<string>)
    ensures Walk(dir, a + b) == Walk(Walk(dir, a), b)
  {
    hide Enter;
    if b == [] {
      assert a + b == a;
    } else {
      var n := |b| - 1;
      assert (a + b)[..|a| + n] == a + b[..n];
      WalkAppend(dir, a, b[..n]);
    }
  }

  lemma {:induction false} WalkOne(dir: seq<string>, part: string)
    ensures Walk(dir, [part]) == Enter(dir, part)
  {
    assert [part][..0] == [];
  }

  /** Pushing a component onto the stack leads where entering it does. */
  lemma {:induction false} WalkPush(rooted: bool, dir: seq<string>, stack: seq<string>, part: string)
    requires StackOk(rooted, stack) && (rooted ==> dir == [])
    ensures Walk(dir, Push(rooted, stack, part)) == Enter(Walk(dir, stack), part)
  {
    if stack != [] {
      var n := |stack| - 1;
      assert stack == stack[..n] + [stack[n]];
    }
    if Push(rooted, stack, part) == stack + [part] {
      assert (stack + [part])[..|stack|] == stack;
    }
  }

  lemma {:induction false} WalkPushAll(rooted: bool, dir: seq<string>, stack: seq<string>, parts: seq<string>)
    requires StackOk(rooted, stack) && (rooted ==> dir == []) && forall i :: 0 <= i < |parts| ==> '/' !in parts[i]
    ensures Walk(dir, PushAll(rooted, stack, parts)) == Walk(Walk(dir, stack), parts)
    decreases |parts|
  {
    hide Push, Enter;
    if parts != [] {
      var next := Push(rooted, stack, parts[0]);
      assert StackOk(rooted, next) by {
        PushAllOk(rooted, stack, [parts[0]]);
        assert [parts[0]][1..] == [] && PushAll(rooted, next, []) == next;
      }
      WalkPush(rooted, dir, stack, parts[0]);
      WalkPushAll(rooted, dir, next, parts[1..]);
      WalkOne(Walk(dir, stack), parts[0]);
      WalkAppend(Walk(dir, stack), [parts[0]], parts[1..]);
      assert [parts[0]] + parts[1..] == parts;
    }
  }

  /** The form of a clean path: "." or "/", or components none of which is empty or "." and in
      which ".." stands only at the start of a relative path. */
  predicate IsClean(path: string) {
    || path == "." || path == "/"
    || StackOk(Rooted(path), Split(if Rooted(path) then path[1..] else path, '/'))
  }

  /** Cleaning gives a clean path that leads to the same place from everywhere. */
  lemma {:induction false} CleanLeadsToTheSame(path: string, dir: seq<string>)
    ensures IsClean(Clean(path)) && Rooted(Clean(path)) == Rooted(path)
    ensures Leads(dir, Clean(path)) == Leads(dir, path)
  {
    hide Split, Push, PushAll, Enter;
    var rooted, parts := Rooted(path), Split(path, '/');
    var stack, from := RootStack(path), if rooted then [] else dir;
    StackIsOk(path);
    SplitHasNoSeparator(path, '/');
    if path == "" {
      SplitPlain("", '/');
      WalkEmpty(dir);
    } else {
      WalkPushAll(rooted, from, [], parts);
    }
    RenderLeads(rooted, stack, from);
  }

  lemma {:induction false} RenderLeads(rooted: bool, stack: seq<string>, dir: seq<string>)
    requires StackOk(rooted, stack) && (rooted ==> dir == [])
    ensures var path := Render(rooted, stack);
            && IsClean(path) && Rooted(path) == rooted && Leads(dir, path) == Walk(dir, stack)
  {
    hide Split, Push, PushAll, Enter;
    var path := Render(rooted, stack);
    if stack == [] {
      if rooted {
        assert path == "" + ['/'] + "";
        SplitAppend("", '/', "");
        SplitPlain("", '/');
        WalkAppend([], [""], [""]);
        WalkEmpty([]);
      } else {
        SplitPlain(".", '/');
        WalkEmpty(dir);
      }
    } else {
      StackOfRender(rooted, stack);
      if rooted {
        SplitOfJoin(stack, '/');
        assert path == "" + ['/'] + JoinSlash(stack) && path[1..] == JoinSlash(stack);
        SplitAppend("", '/', JoinSlash(stack));
        SplitPlain("", '/');
        WalkAppend([], [""], stack);
        WalkEmpty([]);
      }
    }
  }

  lemma {:induction false} WalkEmpty(dir: seq<string>)
    ensures Walk(dir, [""]) == dir && Walk(dir, ["."]) == dir
  {
    WalkOne(dir, "");
    WalkOne(dir, ".");
  }

  /** An absolute path leads where the path leads from the working directory. */
  lemma {:induction false} AbsLeadsToTheSame(cwd: string, path: string)
    requires Rooted(cwd)
    ensures Rooted(Abs(cwd, path)) && IsClean(Abs(cwd, path))
    ensures Leads([], Abs(cwd, path)) == Leads(Leads([], cwd), path)
  {
    hide Split, Walk, Clean, IsClean;
    if Rooted(path) {
      CleanLeadsToTheSame(path, []);
    } else {
      CleanLeadsToTheSame(cwd + "/" + path, []);
      assert cwd + "/" + path == cwd + ['/'] + path;
      SplitAppend(cwd, '/', path);
      WalkAppend([], Split(cwd, '/'), Split(path, '/'));
    }
  }

  // ---------------------------------------------------------------- under the root

  /** A name directly below a clean directory. */
  function Below(dir: string, name: string): string {
    if dir == "." then name else if dir == "/" then "/" + name else dir + "/" + name
  }

  function RootStack(root: string): seq<string> {
    if root == "" then [] else Stack(root)
  }

  lemma {:induction false} JoinStack(root: string, name: string)
    requires Plain(name)
    ensures Join(root, name) == Render(Rooted(root), RootStack(root) + [name])
    ensures StackOk(Rooted(root), RootStack(root)) && StackOk(Rooted(root), RootStack(root) + [name])
  {
    hide Split, Push, PushAll;
    if root == "" {
      SplitPlain(name, '/');
      PushPlain(false, [], name);
    } else {
      StackIsOk(root);
      StackOfAppend(root, name);
    }
  }

  lemma {:induction false} RenderBelow(rooted: bool, stack: seq<string>, name: string)
    requires StackOk(rooted, stack)
    ensures Render(rooted, stack + [name]) == Below(Render(rooted, stack), name)
  {
    if stack != [] {
      JoinSlashAppend(stack, name);
      RenderIsNotTrivial(rooted, stack);
    } else {
      assert [] + [name] == [name];
    }
  }

  /** For every root, a plain name joins directly below the cleaned root. */
  lemma {:induction false} JoinPlain(root: string, name: string)
    requires Plain(name)
    ensures Join(root, name) == Below(Clean(root), name)
    ensures Join(root, name) == Render(Rooted(root), RootStack(root) + [name])
    ensures StackOk(Rooted(root), RootStack(root) + [name])
  {
    hide Split, Push, PushAll, Join, Render, StackOk, Below;
    JoinStack(root, name);
    RenderBelow(Rooted(root), RootStack(root), name);
  }

  lemma {:induction false} RenderIsNotTrivial(rooted: bool, stack: seq<string>)
    requires StackOk(rooted, stack) && stack != []
    ensures Render(rooted, stack) != "." && Render(rooted, stack) != "/"
  {
    hide Split;
    StackOfRender(rooted, stack);
    SplitPlain(".", '/');
    JoinSlashStarts(stack);
  }

  /** With a plain id and a plain file name the target is root/id/file, and both absolute
      forms differ by the file name alone: the within-root check cannot fail. */
  lemma {:induction false} TargetIsInsideRoot(cwd: string, assetsRoot: string, id: string, file: string)
    requires Rooted(cwd) && Plain(id) && Plain(file)
    ensures var root := Join(assetsRoot, id);
            && root == Below(Clean(assetsRoot), id)
            && Join(root, file) == root + "/" + file
            && Abs(cwd, Join(root, file)) == Abs(cwd, root) + "/" + file
            && Abs(cwd, root) + "/" <= Abs(cwd, Join(root, file))
  {
    hide Split, Push, Join, Clean;
    var rooted := Rooted(assetsRoot);
    var stack := RootStack(assetsRoot) + [id];
    var root := Join(assetsRoot, id);
    JoinPlain(assetsRoot, id);
    StackOfRender(rooted, stack);
    JoinOntoRendered(rooted, stack, file);
    StackOfRender(rooted, stack + [file]);
    AbsOfRendered(cwd, rooted, stack, file);
    assert (Abs(cwd, root) + "/" + file)[..|Abs(cwd, root)| + 1] == Abs(cwd, root) + "/";
  }

  lemma {:induction false} JoinOntoRendered(rooted: bool, stack: seq<string>, file: string)
    requires StackOk(rooted, stack) && stack != [] && Plain(file)
    ensures Join(Render(rooted, stack), file) == Render(rooted, stack) + "/" + file == Render(rooted, stack + [file])
    ensures StackOk(rooted, stack + [file])
  {
    hide Split, Push;
    var root := Render(rooted, stack);
    StackOfRender(rooted, stack);
    JoinSlashStarts(stack);
    StackOfAppend(root, file);
    JoinSlashAppend(stack, file);
  }

  lemma {:induction false} AbsOfRendered(cwd: string, rooted: bool, stack: seq<string>, file: string)
    requires Rooted(cwd) && StackOk(rooted, stack) && stack != [] && Plain(stack[|stack| - 1]) && Plain(file)
    ensures Abs(cwd, Render(rooted, stack + [file])) == Abs(cwd, Render(rooted, stack)) + "/" + file
  {
    hide Split, Push;
    JoinOntoRendered(rooted, stack, file);
    StackOfRender(rooted, stack);
    StackOfRender(rooted, stack + [file]);
    if !rooted {
      hide Stack, Render, Join;
      AbsOfRelative(cwd, stack, file);
    }
  }

  lemma {:induction false} AbsOfRelative(cwd: string, stack: seq<string>, file: string)
    requires Rooted(cwd) && StackOk(false, stack) && stack != [] && Plain(stack[|stack| - 1]) && Plain(file)
    requires StackOk(false, stack + [file])
    ensures Join(cwd, Render(false, stack + [file])) == Join(cwd, Render(false, stack)) + "/" + file
  {
    hide Split, Push, Join, Stack;
    var under := PushAll(true, Stack(cwd), stack);
    AbsStack(cwd, stack);
    AbsStack(cwd, stack + [file]);
    PushAllAppend(true, Stack(cwd), stack, [file]);
    PushPlain(true, under, file);
    EndsPlain(Stack(cwd), stack);
    JoinSlashAppend(under, file);
  }

  lemma {:induction false} AbsStack(cwd: string, stack: seq<string>)
    requires Rooted(cwd) && StackOk(false, stack) && stack != []
    ensures Join(cwd, Render(false, stack)) == Render(true, PushAll(true, Stack(cwd), stack))
  {
    hide Split, Push;
    var path := Render(false, stack);
    StackOfRender(false, stack);
    SplitAppend(cwd, '/', path);
    PushAllAppend(true, [], Split(cwd, '/'), Split(path, '/'));
  }

  lemma {:induction false} EndsPlain(base: seq<string>, stack: seq<string>)
    requires stack != [] && Plain(stack[|stack| - 1])
    ensures PushAll(true, base, stack) != []
  {
    hide Push;
    var n := |stack| - 1;
    assert stack == stack[..n] + [stack[n]];
    PushAllAppend(true, base, stack[..n], [stack[n]]);
    PushPlain(true, PushAll(true, base, stack[..n]), stack[n]);
  }

  // ---------------------------------------------------------------- the request

  datatype AssetRequest = AssetRequest(assetId: string, filename: string, ext: string, root: string, target: string)

  const NOT_FOUND: int := 404
  const BAD_REQUEST: int := 400

  /** parseRequest; `cwd` is missing when the working directory cannot be determined. */
  function ParseRequest(assetsRoot: string, cwd: Option<string>, path: string): Result<AssetRequest, int> {
    match ParseAssetPath(path)
    case None => Failure(NOT_FOUND)
    case Some((id, file)) =>
      if !ValidAssetId(id) then Failure(BAD_REQUEST)
      else if file == "" then Failure(NOT_FOUND)
      else if !ValidFilename(file) then Failure(BAD_REQUEST)
      else match ValidExtension(file)
        case None => Failure(BAD_REQUEST)
        case Some(ext) =>
          var root := Join(assetsRoot, id);
          var target := Join(root, file);
          if !Rooted(root) && cwd.None? then Failure(BAD_REQUEST)
          else
            var dir := if cwd.Some? then cwd.value else "/";
            if !(Abs(dir, root) + "/" <= Abs(dir, target)) then Failure(BAD_REQUEST)
            else Success(AssetRequest(id, file, ext, root, target))
  }

  lemma {:induction false} ValidNamesArePlain(id: string, file: string)
    requires ValidAssetId(id) && ValidFilename(file) && ValidExtension(file).Some?
    ensures Plain(id) && Plain(file)
  {
    hide Lower, ValidExtension;
    assert '/' !in id && '/' !in file by {
      assert IdChar(id[0]) && !IdChar('.');
    }
    assert IdChar(id[0]) && !IdChar('.');
    assert OccursAt("..", "..", 0) && Contains("..", "..");
    ServableNamesAreLong(file);
  }

  lemma {:induction false} ServableNamesAreLong(name: string)
    requires ValidExtension(name).Some?
    ensures |name| >= 3
  {
    hide Ext, Lower;
    var ext := Lower(Ext(name));
    assert |ext| >= 3;
  }

  /** A character that stands in ids and, beside the dot, in file names. */
  predicate Word(c: char) {
    c == '_' || c == '-' || '0' <= c <= '9' || 'A' <= c <= 'Z' || 'a' <= c <= 'z'
  }

  /** A servable path, named by its parts: a short id of word characters, and a short file name
      of word characters and single dots with a served extension. */
  predicate Servable(path: string, id: string, file: string, ext: string) {
    && path == "/assets/" + id + "/" + file
    && 1 <= |id| <= 128 && (forall i :: 0 <= i < |id| ==> Word(id[i]))
    && 1 <= |file| <= 256 && (forall i :: 0 <= i < |file| ==> Word(file[i]) || file[i] == '.')
    && (forall i :: 0 < i < |file| && file[i - 1] == '.' ==> file[i] != '.')
    && HasServedExtension(file, ext)
  }

  lemma {:induction false} ValidatorsMean(path: string, id: string, file: string, ext: string)
    ensures Servable(path, id, file, ext)
       <==> path == "/assets/" + id + "/" + file && ValidAssetId(id) && ValidFilename(file)
            && ValidExtension(file) == Some(ext)
  {
    hide HasServedExtension, ValidExtension;
    ExtensionMeans(file, ext);
    DotsMean(file);
    if forall i :: 0 <= i < |file| ==> Word(file[i]) || file[i] == '.' {
      NoSlashes(file);
    }
  }

  lemma {:induction false} DotsMean(file: string)
    ensures Contains(file, "..") <==> exists i :: 0 < i < |file| && file[i - 1] == '.' && file[i] == '.'
  {
    if Contains(file, "..") {
      var i: nat :| i <= |file| && OccursAt(file, "..", i);
      assert file[i] == file[i..i + 2][0] && file[i + 1] == file[i..i + 2][1];
      assert file[i + 1 - 1] == '.';
    }
    if i :| 0 < i < |file| && file[i - 1] == '.' && file[i] == '.' {
      assert OccursAt(file, "..", i - 1);
    }
  }

  lemma {:induction false} NoSlashes(file: string)
    requires forall i :: 0 <= i < |file| ==> Word(file[i]) || file[i] == '.'
    ensures !Contains(file, "/") && !Contains(file, "\\")
  {
    forall i: nat | i <= |file|
      ensures !OccursAt(file, "/", i) && !OccursAt(file, "\\", i)
    {
      if i < |file| {
        assert file[i..i + 1][0] == file[i];
      }
    }
  }

  /** The requests let through are exactly the servable paths, each mapped to root/id/file
      and its own extension; after the validators nothing else can refuse one. */
  lemma {:induction false} RequestsAreServablePaths(assetsRoot: string, cwd: string, path: string, id: string,
      file: string, ext: string)
    requires Rooted(cwd)
    ensures Servable(path, id, file, ext) <==>
              ParseRequest(assetsRoot, Some(cwd), path)
              == Success(AssetRequest(id, file, ext, Below(Clean(assetsRoot), id),
                                      Below(Clean(assetsRoot), id) + "/" + file))
  {
    hide Join, Abs, Clean, Ext, Lower, ValidExtension, Find, Servable;
    ParseIsInverseOfPrint(path, id, file);
    ValidatorsMean(path, id, file, ext);
    if Servable(path, id, file, ext) {
      ValidNamesArePlain(id, file);
      TargetIsInsideRoot(cwd, assetsRoot, id, file);
    }
  }

  /** A refusal is "not found" exactly when the path is not of the served form, or names
      an asset without a file; every other refusal is a bad request. */
  lemma {:induction false} RefusalStatus(assetsRoot: string, cwd: Option<string>, path: string)
    ensures ParseRequest(assetsRoot, cwd, path) == Failure(404) <==>
              || (forall id, file :: path == PrintAssetPath(id, file) ==> '/' in id)
              || (exists id :: path == PrintAssetPath(id, "") && ValidAssetId(id))
    ensures var r := ParseRequest(assetsRoot, cwd, path); r.Failure? ==> r.error in {404, 400}
  {
    hide Join, Abs, Ext, Lower, ValidExtension, Find, ParseAssetPath, PrintAssetPath;
    match ParseAssetPath(path)
    case None =>
      forall id, file | path == PrintAssetPath(id, file)
        ensures '/' in id
      {
        ParseOfPrint(path, id, file);
      }
    case Some((id, file)) =>
      ParseOfPrint(path, id, file);
      forall id', file' | path == PrintAssetPath(id', file') && '/' !in id'
        ensures id' == id && file' == file
      {
        ParseOfPrint(path, id', file');
      }
      forall id' | ValidAssetId(id')
        ensures '/' !in id'
      {
        assert !IdChar('/');
      }
  }
}
