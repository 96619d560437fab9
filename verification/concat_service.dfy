/**
 * The `POST /concat` handler of the video concatenation service
 * (`concat_videos`): per-job workspace naming, the sequential fail-fast
 * download loop, the ffmpeg concat manifest and the response record.
 *
 * The network download (`curl`) and the join (`ffmpeg`) are external
 * processes; each appears here only through its success or failure:
 * `curl(i)` is the outcome of downloading scene `i`, `ffmpegOk` the outcome
 * of the join.  The job id, a fresh UUID in the service, is a parameter.
 */
module ConcatService {
  import opened Wrappers
  import PyStr

  /** One input clip: where to fetch it from and its advisory length in seconds. */
  datatype Scene = Scene(url: string, duration: real)

  /** The request body of `POST /concat`. */
  datatype ConcatRequest = ConcatRequest(scenes: seq<Scene>, outputPath: string, campaignId: string)

  /** One `curl -o <output> <url>` invocation. */
  datatype CurlCall = CurlCall(output: string, url: string)

  /** What the download loop ends with: every local file, or the index whose download failed. */
  datatype FetchOutcome = Fetched(files: seq<string>) | FetchFailed(index: nat)

  /** Why a job failed; the service reports every cause as HTTP 500. */
  datatype FailureCause = DownloadError(index: nat) | FfmpegError

  /** The handler's answer: the success record, or the HTTP error it raises. */
  datatype Response =
    | Ok(outputUrl: string, jobId: string, sceneCount: nat)
    | HttpError(status: nat, cause: FailureCause)

  /** Everything one call of the handler does that can be observed:
      the downloads it attempted in order, the manifest it wrote (if it got
      that far), the ffmpeg command it ran (likewise) and its response. */
  datatype JobRun = JobRun(
    downloads: seq<CurlCall>,
    manifest: Option<string>,
    ffmpegArgs: Option<seq<string>>,
    response: Response)

  const WorkspacePrefix := "/tmp/concat_"
  const ServerErrorStatus: nat := 500

  /** The job's working directory. */
  function TempDir(jobId: string): string
  {
    WorkspacePrefix + jobId
  }

  /** Where scene `i` is downloaded to inside the workspace. */
  function ScenePath(tempDir: string, i: nat): string
  {
    tempDir + "/scene_" + PyStr.NatToString(i) + ".mp4"
  }

  /** The local files of the first `n` scenes, in index order. */
  function ScenePaths(tempDir: string, n: nat): (paths: seq<string>)
    ensures |paths| == n
    ensures forall i :: 0 <= i < n ==> paths[i] == ScenePath(tempDir, i)
    ensures forall i, j :: 0 <= i < j < n ==> paths[i] != paths[j]
  {
    ScenePathsDistinct(tempDir, n);
    seq(n, i requires 0 <= i => ScenePath(tempDir, i))
  }

  /** The first `n` scenes of a job are downloaded to `n` different files. */
  lemma ScenePathsDistinct(tempDir: string, n: nat)
    ensures forall i, j :: 0 <= i < j < n ==> ScenePath(tempDir, i) != ScenePath(tempDir, j)
  {
    forall i, j | 0 <= i < j < n
      ensures ScenePath(tempDir, i) != ScenePath(tempDir, j)
    {
      if ScenePath(tempDir, i) == ScenePath(tempDir, j) {
        ScenePathInjective(tempDir, i, j);
      }
    }
  }

  /** The manifest file ffmpeg reads. */
  function ConcatFile(tempDir: string): string
  {
    tempDir + "/concat.txt"
  }

  /** The file ffmpeg writes. */
  function OutputFile(tempDir: string): string
  {
    tempDir + "/output.mp4"
  }

  /** `ffmpeg -f concat -safe 0 -i <manifest> -c copy <output>`: demuxer
      concatenation with stream copy. */
  function FfmpegCommand(concatFile: string, outputFile: string): seq<string>
  {
    ["ffmpeg", "-f", "concat", "-safe", "0", "-i", concatFile, "-c", "copy", outputFile]
  }

  /** Distinct job ids get distinct workspaces. */
  lemma TempDirInjective(a: string, b: string)
    requires TempDir(a) == TempDir(b)
    ensures a == b
  {
    assert a == TempDir(a)[|WorkspacePrefix|..];
    assert b == TempDir(b)[|WorkspacePrefix|..];
  }

  /** Within one workspace, distinct indices get distinct scene files. */
  lemma ScenePathInjective(tempDir: string, i: nat, j: nat)
    requires ScenePath(tempDir, i) == ScenePath(tempDir, j)
    ensures i == j
  {
    var a := tempDir + "/scene_";
    var si := PyStr.NatToString(i);
    var sj := PyStr.NatToString(j);
    var x := ScenePath(tempDir, i);
    assert |si| == |sj|;
    assert si == x[|a|..|a| + |si|];
    assert sj == x[|a|..|a| + |sj|];
    PyStr.NatToStringInjective(i, j);
  }

  /** No scene file of one job is a scene file of another job: the paths
      determine both the job id and the index. */
  lemma ScenePathsOfJobsDisjoint(a: string, b: string, i: nat, j: nat)
    requires ScenePath(TempDir(a), i) == ScenePath(TempDir(b), j)
    ensures a == b && i == j
  {
    var si := PyStr.NatToString(i);
    var sj := PyStr.NatToString(j);
    var pa := TempDir(a) + "/scene_";
    var pb := TempDir(b) + "/scene_";
    var x := ScenePath(TempDir(a), i);
    assert x == pa + si + ".mp4" == pb + sj + ".mp4";
    var u := x[..|x| - 4];
    assert u == pa + si by { assert (pa + si + ".mp4")[..|x| - 4] == pa + si; }
    assert u == pb + sj by { assert (pb + sj + ".mp4")[..|x| - 4] == pb + sj; }
    PyStr.TrailingDigitsAfter(pa, si);
    PyStr.TrailingDigitsAfter(pb, sj);
    assert |si| == |sj|;
    assert si == u[|u| - |si|..] == sj;
    PyStr.NatToStringInjective(i, j);
    assert pa == u[..|u| - |si|] == pb;
    assert TempDir(a) == pa[..|pa| - 7] == TempDir(b);
    TempDirInjective(a, b);
  }

  /** The download loop: scene `i` is fetched to its indexed path, strictly in
      index order; the first failing download ends the loop, so no later
      index is attempted. */
  method DownloadScenes(tempDir: string, scenes: seq<Scene>, curl: nat -> bool)
    returns (calls: seq<CurlCall>, outcome: FetchOutcome)
    ensures outcome.Fetched? <==> forall i :: 0 <= i < |scenes| ==> curl(i)
    ensures outcome.Fetched? ==> outcome.files == ScenePaths(tempDir, |scenes|)
    ensures outcome.FetchFailed? ==>
              && outcome.index < |scenes|
              && !curl(outcome.index)
              && forall i :: 0 <= i < outcome.index ==> curl(i)
    ensures |calls| == if outcome.Fetched? then |scenes| else outcome.index + 1
    ensures forall i :: 0 <= i < |calls| ==> calls[i] == CurlCall(ScenePath(tempDir, i), scenes[i].url)
  {
    var files: seq<string> := [];
    calls := [];
    var i := 0;
    while i < |scenes|
      invariant 0 <= i <= |scenes|
      invariant files == ScenePaths(tempDir, i)
      invariant |calls| == i
      invariant forall k :: 0 <= k < i ==> curl(k)
      invariant forall k :: 0 <= k < i ==> calls[k] == CurlCall(ScenePath(tempDir, k), scenes[k].url)
    {
      var scenePath := ScenePath(tempDir, i);
      calls := calls + [CurlCall(scenePath, scenes[i].url)];
      if !curl(i) {
        return calls, FetchFailed(i);
      }
      files := files + [scenePath];
      i := i + 1;
    }
    outcome := Fetched(files);
  }

  /** One manifest line: `file '<path>'` and a newline. */
  function ManifestLine(path: string): string
  {
    "file '" + path + "'\n"
  }

  /** The concat manifest: one line per file, in the order given.  It is
      empty exactly when there are no files; otherwise it opens with the first
      file's directive and closes the last file's line. */
  function Manifest(files: seq<string>): (text: string)
    ensures text == "" <==> files == []
    ensures files != [] ==> PyStr.StartsWith(text, "file '" + files[0])
    ensures files != [] ==> PyStr.EndsWith(text, files[|files| - 1] + "'\n")
  {
    if |files| == 0 then ""
    else
      var line := ManifestLine(files[0]);
      var rest := Manifest(files[1..]);
      var last := files[|files| - 1] + "'\n";
      assert (line + rest)[..|"file '" + files[0]|] == "file '" + files[0];
      if |files| > 1 then
        assert files[1..][|files[1..]| - 1] == files[|files| - 1];
        assert (line + rest)[|line + rest| - |last|..] == rest[|rest| - |last|..];
        line + rest
      else
        assert line + rest == line;
        line + rest
  }

  /** The manifest of two lists is the first's manifest followed by the second's:
      building it never reorders entries. */
  lemma {:induction false} ManifestAppend(a: seq<string>, b: seq<string>)
    ensures Manifest(a + b) == Manifest(a) + Manifest(b)
  {
    if |a| > 0 {
      assert (a + b)[1..] == a[1..] + b;
      ManifestAppend(a[1..], b);
    } else {
      assert a + b == b;
    }
  }

  /** Writing the manifest file, one `f.write` per scene file, in order. */
  method WriteManifest(files: seq<string>) returns (text: string)
    ensures text == Manifest(files)
  {
    text := "";
    var k := 0;
    while k < |files|
      invariant 0 <= k <= |files|
      invariant text == Manifest(files[..k])
    {
      ManifestAppend(files[..k], [files[k]]);
      assert files[..k + 1] == files[..k] + [files[k]];
      text := text + ManifestLine(files[k]);
      k := k + 1;
    }
    assert files[..k] == files;
  }

  /** Reads a manifest back: every newline-terminated line must have the
      form `file '<path>'`. */
  function ParseManifest(text: string): Option<seq<string>>
  {
    var lines := PyStr.SplitOn(text, "\n");
    if lines[|lines| - 1] != "" then None else ParseManifestLines(lines[..|lines| - 1])
  }

  function ParseManifestLines(lines: seq<string>): Option<seq<string>>
  {
    if |lines| == 0 then Some([])
    else
      var l := lines[0];
      if |l| < 7 || !PyStr.StartsWith(l, "file '") || !PyStr.EndsWith(l, "'") then None
      else
        match ParseManifestLines(lines[1..])
        case None => None
        case Some(rest) => Some([l[6..|l| - 1]] + rest)
  }

  /** The manifest lines without their newlines. */
  function ManifestBodies(files: seq<string>): (lines: seq<string>)
    ensures |lines| == |files|
  {
    if |files| == 0 then [] else ["file '" + files[0] + "'"] + ManifestBodies(files[1..])
  }

  /** Splitting a manifest at newlines gives one line per file and a final empty piece. */
  lemma {:induction false} ManifestSplit(files: seq<string>)
    requires forall k :: 0 <= k < |files| ==> '\n' !in files[k]
    ensures PyStr.SplitOn(Manifest(files), "\n") == ManifestBodies(files) + [""]
  {
    if |files| == 0 {
      assert PyStr.FindFirst("", "\n") == None;
    } else {
      var head := "file '" + files[0] + "'";
      assert '\n' !in head;
      assert ManifestLine(files[0]) == head + ['\n'];
      assert Manifest(files) == head + ['\n'] + Manifest(files[1..]);
      PyStr.SplitAfterChar(head, '\n', Manifest(files[1..]));
      ManifestSplit(files[1..]);
    }
  }

  lemma {:induction false} ParseBodies(files: seq<string>)
    ensures ParseManifestLines(ManifestBodies(files)) == Some(files)
  {
    if |files| > 0 {
      var l := "file '" + files[0] + "'";
      assert l[..6] == "file '";
      assert l[|l| - 1..] == "'";
      assert l[6..|l| - 1] == files[0];
      assert ManifestBodies(files)[1..] == ManifestBodies(files[1..]);
      ParseBodies(files[1..]);
      assert [files[0]] + files[1..] == files;
    }
  }

  /** Reading the manifest back yields exactly the scene files, in order,
      as long as no path contains a newline. */
  lemma ManifestRoundTrip(files: seq<string>)
    requires forall k :: 0 <= k < |files| ==> '\n' !in files[k]
    ensures ParseManifest(Manifest(files)) == Some(files)
  {
    ManifestSplit(files);
    var lines := ManifestBodies(files) + [""];
    assert lines[..|lines| - 1] == ManifestBodies(files);
    ParseBodies(files);
  }

  /** The manifest has exactly one newline-terminated line per file. */
  lemma ManifestLineCount(files: seq<string>)
    requires forall k :: 0 <= k < |files| ==> '\n' !in files[k]
    ensures PyStr.Count(Manifest(files), "\n") == |files|
  {
    ManifestSplit(files);
    PyStr.CountIsSplitLength(Manifest(files), "\n");
  }

  /** Scene paths never contain a newline when the job id does not. */
  lemma ScenePathsNewlineFree(jobId: string, n: nat)
    requires '\n' !in jobId
    ensures forall k :: 0 <= k < n ==> '\n' !in ScenePaths(TempDir(jobId), n)[k]
  {
    forall k | 0 <= k < n
      ensures '\n' !in ScenePath(TempDir(jobId), k)
    {
      var d := PyStr.NatToString(k);
      assert forall c :: c in d ==> PyStr.IsDigit(c);
    }
  }

  /** The whole handler: make the workspace, download every scene in order,
      write the manifest, run ffmpeg, answer with the output location. Any
      failure becomes HTTP 500. An empty scene list is not rejected. */
  method ConcatVideos(request: ConcatRequest, jobId: string, curl: nat -> bool, ffmpegOk: bool)
    returns (run: JobRun)
    ensures run.manifest.Some? <==> forall i :: 0 <= i < |request.scenes| ==> curl(i)
    ensures run.manifest.Some? ==> run.manifest.value == Manifest(ScenePaths(TempDir(jobId), |request.scenes|))
    ensures run.ffmpegArgs.Some? <==> run.manifest.Some?
    ensures run.ffmpegArgs.Some? ==>
              run.ffmpegArgs.value == FfmpegCommand(ConcatFile(TempDir(jobId)), OutputFile(TempDir(jobId)))
    ensures run.response.Ok? <==> run.manifest.Some? && ffmpegOk
    ensures run.response.Ok? ==>
              && run.response.outputUrl == "file://" + TempDir(jobId) + "/output.mp4"
              && run.response.jobId == jobId
              && run.response.sceneCount == |request.scenes|
    ensures run.response.HttpError? ==> run.response.status == ServerErrorStatus
    ensures run.response.HttpError? && run.manifest.Some? ==> run.response.cause == FfmpegError
    ensures run.manifest.None? ==>
              && run.response.HttpError?
              && run.response.cause.DownloadError?
              && run.response.cause.index < |request.scenes|
              && !curl(run.response.cause.index)
              && (forall i :: 0 <= i < run.response.cause.index ==> curl(i))
              && |run.downloads| == run.response.cause.index + 1
    ensures run.manifest.Some? ==> |run.downloads| == |request.scenes|
    ensures forall i :: 0 <= i < |run.downloads| ==>
              run.downloads[i] == CurlCall(ScenePath(TempDir(jobId), i), request.scenes[i].url)
    ensures |request.scenes| == 0 ==> run.manifest == Some("")
  {
    var tempDir := TempDir(jobId);
    var calls, outcome := DownloadScenes(tempDir, request.scenes, curl);
    if outcome.FetchFailed? {
      return JobRun(calls, None, None, HttpError(ServerErrorStatus, DownloadError(outcome.index)));
    }
    var text := WriteManifest(outcome.files);
    var outputFile := OutputFile(tempDir);
    var args := FfmpegCommand(ConcatFile(tempDir), outputFile);
    if !ffmpegOk {
      return JobRun(calls, Some(text), Some(args), HttpError(ServerErrorStatus, FfmpegError));
    }
    run := JobRun(calls, Some(text), Some(args), Ok("file://" + outputFile, jobId, |outcome.files|));
  }
}
