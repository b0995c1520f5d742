/**
 * How editor.md/lib/wasm/expat.js finds and caches its WebAssembly module: the
 * script directory, the wasmFolder setting, the URL loadWasm builds, and the
 * g_wasmCache dictionary that makes every URL start loading at most once. Fetching
 * and instantiating the module are asynchronous host calls; a started load is
 * represented by the arguments it was started with.
 */
module WasmLoader {
  import opened JsValues
  import opened Trim

  const Slash: CodeUnit := '/' as int
  const Query: CodeUnit := '?' as int
  const Fragment: CodeUnit := '#' as int

  /** JavaScript truthiness of a value that is undefined or a string: "" and undefined are falsy. */
  predicate Truthy(v: Option<JsString>) {
    v.Some? && v.value != []
  }

  /** Where the match of /[?#].*\/ starts: the first '?' or '#', or the end of src. */
  function QueryStart(src: JsString, from: nat): (k: nat)
    requires from <= |src|
    ensures from <= k <= |src|
    ensures forall j :: from <= j < k ==> src[j] != Query && src[j] != Fragment
    ensures k < |src| ==> src[k] == Query || src[k] == Fragment
    decreases |src| - from
  {
    if from == |src| || src[from] == Query || src[from] == Fragment then from
    else QueryStart(src, from + 1)
  }

  /** The line terminators of ECMAScript, which `.` does not match without the s flag. */
  predicate IsLineTerminator(u: CodeUnit) {
    u == 0x0A || u == 0x0D || u == 0x2028 || u == 0x2029
  }

  /** Where the greedy `.*` stops: the first line terminator at or after from, or the end of src. */
  function LineEnd(src: JsString, from: nat): (e: nat)
    requires from <= |src|
    ensures from <= e <= |src|
    ensures forall j :: from <= j < e ==> !IsLineTerminator(src[j])
    ensures e < |src| ==> IsLineTerminator(src[e])
    decreases |src| - from
  {
    if from == |src| || IsLineTerminator(src[from]) then from
    else LineEnd(src, from + 1)
  }

  /**
   * src.replace(/[?#].*\/, ""): a regular expression without the g flag replaces its
   * first match only, which runs from the first '?' or '#' up to the next line
   * terminator; the text after that terminator stays.
   */
  function Stripped(src: JsString): JsString {
    var q := QueryStart(src, 0);
    src[..q] + src[LineEnd(src, q)..]
  }

  /** lastIndexOf('/') among the first n units of s: the last slash before n, or -1. */
  function LastSlash(s: JsString, n: nat): (k: int)
    requires n <= |s|
    ensures -1 <= k < n
    ensures k >= 0 ==> s[k] == Slash
    ensures forall j :: k < j < n ==> s[j] != Slash
  {
    if n == 0 then -1
    else if s[n - 1] == Slash then n - 1
    else LastSlash(s, n - 1)
  }

  /**
   * scriptDir: substr(0, k + 1) of the script's URL, where k is the position of the
   * last '/' in the stripped URL. The position is taken in the stripped string but
   * cuts the original one.
   */
  function ScriptDir(src: JsString): (d: JsString)
    ensures d <= src
  {
    var r := Stripped(src);
    src[..LastSlash(r, |r|) + 1]
  }

  /**
   * The stripped URL lacks exactly the units from the first '?' or '#' up to the next
   * line terminator, and scriptDir is the prefix of src as long as the stripped URL
   * up to and including its last '/', or "" when it has none.
   */
  lemma ScriptDirMeaning(src: JsString)
    ensures var q := QueryStart(src, 0);
      var e := LineEnd(src, q);
      var r, d := Stripped(src), ScriptDir(src);
      && |r| == |src| - (e - q)
      && (forall j :: 0 <= j < q ==> r[j] == src[j] && src[j] != Query && src[j] != Fragment)
      && (forall j :: q <= j < |r| ==> r[j] == src[j + (e - q)])
      && (forall j :: q <= j < e ==> !IsLineTerminator(src[j]))
      && (q < |src| ==> (src[q] == Query || src[q] == Fragment) && (e == |src| || IsLineTerminator(src[e])))
      && d <= src && |d| <= |r|
      && (d == [] || r[|d| - 1] == Slash)
      && (forall j :: |d| <= j < |r| ==> r[j] != Slash)
  {
  }

  /**
   * When the match of the replace runs to the end of the URL, as in a browser's script
   * URL, which holds no line terminator, scriptDir is the longest prefix of src that
   * ends with '/' and lies before any '?' or '#', or "" when there is none.
   */
  lemma ScriptDirSingleLine(src: JsString)
    requires LineEnd(src, QueryStart(src, 0)) == |src|
    ensures var d := ScriptDir(src);
      && (d == [] || src[|d| - 1] == Slash)
      && (forall j :: 0 <= j < |d| ==> src[j] != Query && src[j] != Fragment)
      && (forall j :: |d| <= j < QueryStart(src, 0) ==> src[j] != Slash)
  {
    var q := QueryStart(src, 0);
    var r := src[..q];
    assert Stripped(src) == r;
    var k := LastSlash(r, q);
    assert ScriptDir(src) == src[..k + 1];
    forall j | k < j < q
      ensures src[j] != Slash
    {
      assert r[j] == src[j];
    }
    if k >= 0 {
      assert r[k] == src[k];
    }
  }

  /** A query cut short by a newline: "a?\n/" keeps "a?\n", as the '/' after the newline survives the replace. */
  lemma ScriptDirNewline()
    ensures ScriptDir(Units("a?\n/")) == Units("a?\n")
  {
    var src := Units("a?\n/");
    assert QueryStart(src, 0) == 1 by { assert QueryStart(src, 1) == 1; }
    assert LineEnd(src, 1) == 2 by { assert LineEnd(src, 2) == 2; }
    assert Stripped(src) == [src[0], src[2], src[3]];
    assert LastSlash(Stripped(src), 3) == 2;
  }

  /** The folder in front of the URL: the first truthy of wf, wasmFolder(), scriptDir, then ".". */
  function Folder(wf: Option<JsString>, folder: Option<JsString>, scriptDir: JsString): JsString {
    if Truthy(wf) then wf.value
    else if Truthy(folder) then folder.value
    else if scriptDir != [] then scriptDir
    else Units(".")
  }

  /** The URL loadWasm loads: the folder without trailing '/', one '/', then filename.wasm without leading '/'. */
  function WasmUrl(folder: JsString, filename: JsString): JsString {
    TrimmedEnd(folder, [Slash]) + [Slash] + TrimmedStart(filename + Units(".wasm"), [Slash])
  }

  /**
   * The URL is joined with exactly one '/': the folder part is the folder with only
   * trailing slashes removed and does not end with '/', and the file part is
   * filename.wasm with only leading slashes removed, does not start with '/', and
   * still ends with ".wasm".
   */
  lemma WasmUrlJoin(folder: JsString, filename: JsString)
    ensures var base, whole := TrimmedEnd(folder, [Slash]), filename + Units(".wasm");
      var file := TrimmedStart(whole, [Slash]);
      && WasmUrl(folder, filename) == base + [Slash] + file
      && base <= folder && (base == [] || base[|base| - 1] != Slash)
      && (forall j :: |base| <= j < |folder| ==> folder[j] == Slash)
      && 5 <= |file| <= |whole| && file == whole[|whole| - |file|..] && file[0] != Slash
      && file[|file| - 5..] == Units(".wasm")
  {
    FolderPart(folder);
    FilePart(filename);
  }

  /** The folder part: the folder up to its trailing slashes. */
  lemma FolderPart(folder: JsString)
    ensures var base := TrimmedEnd(folder, [Slash]);
      && base <= folder && (base == [] || base[|base| - 1] != Slash)
      && (forall j :: |base| <= j < |folder| ==> folder[j] == Slash)
  {
    var base := TrimmedEnd(folder, [Slash]);
    TrimmedEndLongest(folder, [Slash]);
    forall j | |base| <= j < |folder|
      ensures folder[j] == Slash
    {
      assert EndsWith(folder[..j + 1], [Slash]);
    }
  }

  /** The file part: a suffix of filename.wasm, at least ".wasm" itself, without a leading slash. */
  lemma FilePart(filename: JsString)
    ensures var whole := filename + Units(".wasm");
      var file := TrimmedStart(whole, [Slash]);
      && 5 <= |file| <= |whole| && file == whole[|whole| - |file|..] && file[0] != Slash
      && file[|file| - 5..] == Units(".wasm")
  {
    var wasm := Units(".wasm");
    var whole := filename + wasm;
    var file := TrimmedStart(whole, [Slash]);
    TrimmedStartLongest(whole, [Slash]);
    assert whole[|whole| - 5..] == wasm;
    assert wasm[0] != Slash;
    assert |file| >= 5;
    assert file[|file| - 5..] == whole[|whole| - 5..];
  }

  /** A started load: _loadWasm(wasmLib, wasmUrl, wasmBinary), named by its arguments. */
  datatype LoadTask = LoadTask(wasmLib: JsString, url: JsString, wasmBinary: Option<seq<Byte>>)

  /** The module-level state of expat.js that loadWasm reads and writes. */
  class Loader {
    /** _wasmFolder, changed through wasmFolder(_). */
    var wasmFolderSetting: Option<JsString>
    /** scriptDir, fixed when the script loads. */
    const scriptDir: JsString
    /** g_wasmCache: URL to the load started for it. */
    var cache: map<JsString, LoadTask>
    /** The URLs _loadWasm was called with, in order. */
    ghost var started: seq<JsString>

    /** Every cached load was started for its own key, and exactly once. */
    ghost predicate Valid()
      reads this
    {
      && (forall u :: u in cache ==> cache[u].url == u)
      && (forall i, j :: 0 <= i < j < |started| ==> started[i] != started[j])
      && (forall u :: u in cache <==> u in started)
    }

    /** Script start: _wasmFolder is globalNS.__hpcc_wasmFolder || undefined, the cache is empty. */
    constructor (hpccWasmFolder: Option<JsString>, currentScript: JsString)
      ensures Valid()
      ensures wasmFolderSetting == (if Truthy(hpccWasmFolder) then hpccWasmFolder else None)
      ensures scriptDir == ScriptDir(currentScript)
      ensures cache == map[] && started == []
    {
      wasmFolderSetting := if Truthy(hpccWasmFolder) then hpccWasmFolder else None;
      scriptDir := ScriptDir(currentScript);
      cache := map[];
      started := [];
    }

    /** wasmFolder() with no argument: the current setting. */
    method WasmFolder() returns (r: Option<JsString>)
      ensures r == wasmFolderSetting
    {
      r := wasmFolderSetting;
    }

    /** wasmFolder(_): installs a new setting and returns the previous one. */
    method SetWasmFolder(v: Option<JsString>) returns (previous: Option<JsString>)
      requires Valid()
      modifies this
      ensures Valid()
      ensures previous == old(wasmFolderSetting) && wasmFolderSetting == v
      ensures cache == old(cache) && started == old(started)
    {
      previous := wasmFolderSetting;
      wasmFolderSetting := v;
    }

    /**
     * loadWasm: builds the URL; a URL already in the cache returns its load, a new
     * one starts a load, caches it and returns it.
     */
    method LoadWasm(wasmLib: JsString, filename: JsString, wf: Option<JsString>, wasmBinary: Option<seq<Byte>>)
      returns (r: LoadTask)
      requires Valid()
      modifies this
      ensures Valid()
      ensures var url := WasmUrl(Folder(wf, old(wasmFolderSetting), scriptDir), filename);
        && r.url == url
        && (url in old(cache) ==> r == old(cache)[url] && cache == old(cache) && started == old(started))
        && (url !in old(cache) ==>
              && r == LoadTask(wasmLib, url, wasmBinary)
              && cache == old(cache)[url := r]
              && started == old(started) + [url])
      ensures wasmFolderSetting == old(wasmFolderSetting)
    {
      var folder := WasmFolder();
      var base := Folder(wf, folder, scriptDir);
      var head := TrimEnd(base, [Slash]);
      var tail := TrimStart(filename + Units(".wasm"), [Slash]);
      var url := head + [Slash] + tail;
      if url !in cache {
        cache := cache[url := LoadTask(wasmLib, url, wasmBinary)];
        started := started + [url];
      }
      r := cache[url];
    }
  }

  /** Every loadWasm URL holds a '/', so it is never the name of a property every object inherits. */
  lemma UrlHasSlash(folder: JsString, filename: JsString)
    ensures Slash in WasmUrl(folder, filename)
  {
    assert WasmUrl(folder, filename)[|TrimmedEnd(folder, [Slash])|] == Slash;
  }
}
