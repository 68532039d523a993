/** The part of `VideoResourceSchema` (src/dashboardWebView/schemas/video-resource.ts) the panel reads. */
module VideoResources {
  import opened Wrappers

  /** The processing states a video resource moves through. */
  datatype ResourceState = New | Processing | Preparing | Ready | Errored | Deleted

  /** A video resource; the duration, asset id and transcript are not read by the panel. */
  datatype VideoResource = VideoResource(id: string, muxPlaybackId: Option<string>, state: ResourceState)
}

/**
 * The video panel of src/components/video.tsx: the reducer behind its
 * `useReducer`, the effect that picks the action to dispatch from the query
 * results, and what each view renders.
 */
module VideoPanel {
  import opened Wrappers
  import R = VideoResources

  /** `State['view']`. */
  datatype View = Empty | Error | Processing | Ready | Upload | Loading

  datatype State = State(view: View, message: string)

  datatype Action =
    | SetEmpty
    | SetError(message: string)
    | SetProcessing(message: string)
    | SetReady
    | SetUpload
    | SetLoading

  /** The state `useReducer` starts from. */
  const Initial: State := State(Loading, "Loading...")

  /** A state the reducer hands out: never `empty`, and a fixed message for the views that have one. */
  predicate Consistent(s: State) {
    && s.view != Empty
    && (s.view == Ready ==> s.message == "")
    && (s.view == Loading ==> s.message == "Loading...")
    && (s.view == Upload ==> s.message == "" || s.message == "No Video")
  }

  /**
   * `videoReducer`. The old state is never read: the action alone decides the
   * new state. `SET_EMPTY` shows the upload view, so no action leads to `empty`.
   */
  function Reduce(state: State, action: Action): (next: State)
    ensures Consistent(next)
    ensures next.view == Error <==> action.SetError?
    ensures next.view == Processing <==> action.SetProcessing?
    ensures next.view == Ready <==> action == SetReady
    ensures next.view == Upload <==> action == SetEmpty || action == SetUpload
    ensures next.view == Loading <==> action == SetLoading
    ensures action.SetError? || action.SetProcessing? ==> next.message == action.message
    ensures action == SetEmpty ==> next.message == "No Video"
    ensures action == SetUpload ==> next.message == ""
  {
    match action
    case SetEmpty => State(Upload, "No Video")
    case SetError(message) => State(Error, message)
    case SetProcessing(message) => State(Processing, message)
    case SetReady => State(Ready, "")
    case SetUpload => State(Upload, "")
    case SetLoading => State(Loading, "Loading...")
  }

  /**
   * The state after dispatching `actions` in order, as `useReducer` keeps it.
   * Once anything has been dispatched, the state is consistent, whatever it was.
   */
  function Run(state: State, actions: seq<Action>): (r: State)
    ensures actions == [] ==> r == state
    ensures actions != [] ==> Consistent(r)
    decreases |actions|
  {
    if actions == [] then state else Run(Reduce(state, actions[0]), actions[1..])
  }

  lemma InitialIsConsistent()
    ensures Consistent(Initial) && Initial.view == Loading
  {
  }

  /** Whatever is dispatched, from a consistent state, the panel stays consistent. */
  lemma {:induction false} RunKeepsConsistent(state: State, actions: seq<Action>)
    requires Consistent(state)
    ensures Consistent(Run(state, actions))
    decreases |actions|
  {
    if actions != [] {
      RunKeepsConsistent(Reduce(state, actions[0]), actions[1..]);
    }
  }

  /**
   * Only the last action dispatched matters: the state a sequence leaves is
   * the state its last action gives from anywhere. In particular dispatching
   * an action twice is the same as dispatching it once.
   */
  lemma {:induction false} RunIsLastAction(state: State, actions: seq<Action>)
    requires actions != []
    ensures Run(state, actions) == Reduce(state, actions[|actions| - 1])
    decreases |actions|
  {
    var next := Reduce(state, actions[0]);
    if |actions| > 1 {
      RunIsLastAction(next, actions[1..]);
      assert actions[1..][|actions[1..]| - 1] == actions[|actions| - 1];
      assert Reduce(next, actions[|actions| - 1]) == Reduce(state, actions[|actions| - 1]);
    }
  }

  lemma ReduceIdempotent(state: State, action: Action)
    ensures Reduce(Reduce(state, action), action) == Reduce(state, action)
  {
    RunIsLastAction(state, [action, action]);
    RunIsLastAction(state, [action]);
  }

  /** The react-query `status` of the video resource query. */
  datatype QueryStatus = QueryError | QuerySuccess | QueryPending

  /** A JavaScript truthiness test of a nullable string: present and non-empty. */
  predicate Truthy(s: Option<string>) {
    s.Some? && s.value != ""
  }

  /**
   * The `useEffect` of the panel: which action it dispatches for the query
   * status, the resource (None for `null`/`undefined`), the id of a freshly
   * uploaded resource and the two results of the mp4 probe. A resource in
   * the `deleted` state dispatches nothing.
   */
  function SelectAction(status: QueryStatus, resource: Option<R.VideoResource>, newVideoResourceId: Option<string>,
                        mp4Ready: bool, mp4ReadyLoading: bool): (r: Option<Action>)
    ensures status == QueryPending ==> r == Some(SetLoading)
    ensures r.None? <==> status != QueryPending && resource.Some? && resource.value.state == R.Deleted
    ensures r.Some? ==> r.value != SetEmpty
    ensures r == Some(SetReady) <==>
            status != QueryPending && resource.Some? && resource.value.state == R.Ready && mp4Ready
    ensures r == Some(SetUpload) <==>
            status == QuerySuccess && resource.None? && !Truthy(newVideoResourceId)
    ensures r == Some(SetLoading) <==>
            status == QueryPending || (resource.Some? && resource.value.state == R.Ready && !mp4Ready && mp4ReadyLoading)
    ensures (r.Some? && r.value.SetError?) <==>
            status != QueryPending &&
            ((resource.None? && status == QueryError) || (resource.Some? && resource.value.state == R.Errored))
    ensures status != QueryPending && resource.None? ==>
            r == Some(if status == QueryError then SetError("error loading video")
                      else if Truthy(newVideoResourceId) then SetProcessing("video is processing")
                      else SetUpload)
    ensures status != QueryPending && resource.Some? && resource.value.state == R.Ready && !mp4Ready && !mp4ReadyLoading ==>
            r == Some(SetProcessing("final encoding"))
    ensures status != QueryPending && resource.Some? && resource.value.state == R.New ==>
            r == Some(SetProcessing("storing video files"))
    ensures status != QueryPending && resource.Some? && resource.value.state == R.Processing ==>
            r == Some(SetProcessing("converting video formats for distribution"))
    ensures status != QueryPending && resource.Some? && resource.value.state == R.Preparing ==>
            r == Some(SetProcessing("video is preparing"))
    ensures status != QueryPending && resource.Some? && resource.value.state == R.Errored ==>
            r == Some(SetError("video is errored. sorry for the hassle. try again and send me a message."))
  {
    if status == QueryPending then Some(SetLoading)
    else if resource.None? then
      if status == QueryError then Some(SetError("error loading video"))
      else if Truthy(newVideoResourceId) then Some(SetProcessing("video is processing"))
      else
        assert status == QuerySuccess;
        Some(SetUpload)
    else
      match resource.value.state
      case Ready =>
        if mp4Ready then Some(SetReady)
        else if mp4ReadyLoading then Some(SetLoading)
        else Some(SetProcessing("final encoding"))
      case New => Some(SetProcessing("storing video files"))
      case Processing => Some(SetProcessing("converting video formats for distribution"))
      case Preparing => Some(SetProcessing("video is preparing"))
      case Errored => Some(SetError("video is errored. sorry for the hassle. try again and send me a message."))
      case Deleted => None
  }

  /** The state after the effect has run: the dispatched action applied, or the state kept. */
  function Settle(state: State, status: QueryStatus, resource: Option<R.VideoResource>,
                  newVideoResourceId: Option<string>, mp4Ready: bool, mp4ReadyLoading: bool): (next: State)
    ensures Consistent(state) ==> Consistent(next)
    ensures status == QueryPending ==> next == Initial
    ensures next == state || next.view != Empty
    ensures next.view == Ready <==>
            (status != QueryPending && resource.Some? && resource.value.state == R.Ready && mp4Ready) ||
            (status != QueryPending && resource.Some? && resource.value.state == R.Deleted && state.view == Ready)
  {
    match SelectAction(status, resource, newVideoResourceId, mp4Ready, mp4ReadyLoading)
    case None => state
    case Some(action) => Reduce(state, action)
  }

  const MuxStream: string := "https://stream.mux.com/"
  const HighMp4: string := "/high.mp4"

  /**
   * The player's `src`: the playback id spliced into the mux URL. A template
   * literal renders an absent resource as "undefined" and a null id as "null".
   */
  function PlayerSource(resource: Option<R.VideoResource>): (src: string)
    ensures |src| >= |MuxStream| + |HighMp4|
    ensures src[..|MuxStream|] == MuxStream && src[|src| - |HighMp4|..] == HighMp4
    ensures resource.Some? && resource.value.muxPlaybackId.Some? ==>
            src[|MuxStream|..|src| - |HighMp4|] == resource.value.muxPlaybackId.value
  {
    var id := if resource.None? then "undefined"
              else if resource.value.muxPlaybackId.None? then "null"
              else resource.value.muxPlaybackId.value;
    var src := MuxStream + id + HighMp4;
    assert src[|MuxStream|..|src| - |HighMp4|] == id;
    src
  }

  /** What `renderContent` shows; each callback is the action its handler dispatches. */
  datatype Content =
    | LoadingPanel
    | Player(src: string, onReplace: Action)
    | UploadForm(isReplacement: bool, onCancel: Option<Action>)
    | MessagePanel(text: string)

  /**
   * `renderContent`. Replace dispatches `SET_UPLOAD`; the upload form offers
   * Cancel, dispatching `SET_READY`, only when a resource exists, and is a
   * replacement exactly when the resource has a non-empty playback id.
   */
  function RenderContent(state: State, resource: Option<R.VideoResource>): (c: Content)
    ensures c.LoadingPanel? <==> state.view == Loading
    ensures c.Player? <==> state.view == Ready
    ensures c.UploadForm? <==> state.view == Upload
    ensures c.MessagePanel? <==> state.view == Empty || state.view == Error || state.view == Processing
    ensures c.MessagePanel? ==> c.text == state.message
    ensures c.Player? ==> c.src == PlayerSource(resource) && Reduce(state, c.onReplace) == State(Upload, "")
    ensures c.UploadForm? ==> (c.onCancel.Some? <==> resource.Some?)
    ensures c.UploadForm? && c.onCancel.Some? ==> Reduce(state, c.onCancel.value) == State(Ready, "")
    ensures c.UploadForm? ==> (c.isReplacement <==> resource.Some? && Truthy(resource.value.muxPlaybackId))
  {
    match state.view
    case Loading => LoadingPanel
    case Ready => Player(PlayerSource(resource), SetUpload)
    case Upload =>
      UploadForm(resource.Some? && Truthy(resource.value.muxPlaybackId),
                 if resource.Some? then Some(SetReady) else None)
    case Empty => MessagePanel(state.message)
    case Error => MessagePanel(state.message)
    case Processing => MessagePanel(state.message)
  }

  /**
   * From the player, Replace leads to the upload form; with a resource, that
   * form's Cancel leads back to the player.
   */
  lemma ReplaceThenCancel(state: State, resource: Option<R.VideoResource>)
    requires state.view == Ready && resource.Some?
    ensures var replaced := Reduce(state, RenderContent(state, resource).onReplace);
            var form := RenderContent(replaced, resource);
            && form.UploadForm? && form.onCancel.Some?
            && RenderContent(Reduce(replaced, form.onCancel.value), resource).Player?
  {
  }

  /** A consistent state never renders the `empty` message panel. */
  lemma ConsistentNeverEmptyPanel(state: State, resource: Option<R.VideoResource>)
    requires Consistent(state)
    ensures RenderContent(state, resource).MessagePanel? ==> state.view == Error || state.view == Processing
  {
  }
}
