/** The scene-navigation store of the front end (`useSceneStore`): a single object whose
    actions overwrite some of its fields. The scene order and the default zoom-out camera come
    from configuration and are fixed when the store is made. */
module SceneManager {
  import opened Wrappers

  type Scene = string

  datatype ZoomDirection = In | Out

  /** The scene the store starts in. */
  const START_SCENE: Scene := "galaxy"
  const DEFAULT_OVERLAY: string := "#000000"

  ghost predicate NoDuplicates(order: seq<Scene>)
  {
    forall i, j :: 0 <= i < j < |order| ==> order[i] != order[j]
  }

  /** `Array.prototype.indexOf`: the first position of `s`, or -1. */
  function IndexOf(order: seq<Scene>, s: Scene): (i: int)
    ensures -1 <= i < |order|
    ensures i == -1 <==> s !in order
    ensures i >= 0 ==> order[i] == s && forall k :: 0 <= k < i ==> order[k] != s
  {
    if order == [] then -1
    else if order[0] == s then 0
    else
      var rest := IndexOf(order[1..], s);
      if rest == -1 then -1 else rest + 1
  }

  function Min(a: int, b: int): int { if a <= b then a else b }
  function Max(a: int, b: int): int { if a >= b then a else b }

  /** The scene `endTransition` aims at: the neighbour of `current` in `order`, clamped to the
      first and last scene. */
  function Target(order: seq<Scene>, current: Scene, isZoomIn: bool): Scene
    requires current in order
  {
    var i := IndexOf(order, current);
    if isZoomIn then order[Min(i + 1, |order| - 1)] else order[Max(i - 1, 0)]
  }

  /** In a list of distinct scenes, `indexOf` finds each scene at its own position. */
  lemma IndexOfDistinct(order: seq<Scene>, i: nat)
    requires NoDuplicates(order) && i < |order|
    ensures IndexOf(order, order[i]) == i
  {
  }

  /** Zooming in moves one scene forward, except from the last scene, where the target is the
      current scene itself. */
  lemma TargetIn(order: seq<Scene>, i: nat)
    requires NoDuplicates(order) && i < |order|
    ensures i + 1 < |order| ==> Target(order, order[i], true) == order[i + 1] != order[i]
    ensures i + 1 == |order| ==> Target(order, order[i], true) == order[i]
  {
    IndexOfDistinct(order, i);
  }

  /** Zooming out moves one scene back, except from the first scene, where the target is the
      current scene itself. */
  lemma TargetOut(order: seq<Scene>, i: nat)
    requires NoDuplicates(order) && i < |order|
    ensures i > 0 ==> Target(order, order[i], false) == order[i - 1] != order[i]
    ensures i == 0 ==> Target(order, order[i], false) == order[i]
  {
    IndexOfDistinct(order, i);
  }

  /** Zooming in and then out comes back to the scene one started from, unless one started on
      the last scene. */
  lemma TargetInOut(order: seq<Scene>, i: nat)
    requires NoDuplicates(order) && i + 1 < |order|
    ensures Target(order, Target(order, order[i], true), false) == order[i]
  {
    TargetIn(order, i);
    TargetOut(order, i + 1);
  }

  /** Zooming out and then in comes back to the scene one started from, unless one started on
      the first scene. */
  lemma TargetOutIn(order: seq<Scene>, i: nat)
    requires NoDuplicates(order) && 0 < i < |order|
    ensures Target(order, Target(order, order[i], false), true) == order[i]
  {
    TargetOut(order, i);
    TargetIn(order, i - 1);
  }

  class SceneStore<Camera> {
    /** `SCENE_MANAGER.SCENE_ORDER`. */
    const order: seq<Scene>
    /** `SCENE_MANAGER.ZOOM_OUT_CAMERA_DATA_DEFAULT`. */
    const defaultCamera: Camera

    var loadingProgress: real
    var loadingText: Option<string>
    var currentScene: Scene
    var zoomDirection: Option<ZoomDirection>
    var sceneZoomed: Option<string>
    var isFullscreenActive: bool
    var isSearchSubmitted: bool
    var isFadingToBlack: bool
    var isFadeComplete: bool
    var overlayColor: string
    var zoomOutCameraData: map<Scene, Camera>

    /** The scene order is a non-empty list of distinct scenes, the current scene is one of
        them, and each has a zoom-out camera entry. */
    ghost predicate Valid()
      reads this
    {
      && |order| > 0 && NoDuplicates(order)
      && currentScene in order
      && forall s :: s in order ==> s in zoomOutCameraData
    }

    /** The initial state: the galaxy scene, nothing loading, every flag off, every scene
        mapped to the default camera. */
    constructor (order: seq<Scene>, defaultCamera: Camera)
      requires NoDuplicates(order) && START_SCENE in order
      ensures Valid()
      ensures this.order == order && this.defaultCamera == defaultCamera
      ensures currentScene == START_SCENE
      ensures zoomOutCameraData == map s | s in order :: defaultCamera
      ensures loadingProgress == 0.0 && loadingText.None?
      ensures zoomDirection.None? && sceneZoomed.None?
      ensures !isFullscreenActive && !isSearchSubmitted && !isFadingToBlack && !isFadeComplete
      ensures overlayColor == DEFAULT_OVERLAY
    {
      this.order := order;
      this.defaultCamera := defaultCamera;
      loadingProgress := 0.0;
      loadingText := None;
      currentScene := START_SCENE;
      zoomDirection := None;
      sceneZoomed := None;
      isFullscreenActive := false;
      isSearchSubmitted := false;
      isFadingToBlack := false;
      isFadeComplete := false;
      overlayColor := DEFAULT_OVERLAY;
      zoomOutCameraData := map s | s in order :: defaultCamera;
    }

    method SetLoadingProgress(progress: real)
      modifies this`loadingProgress
      ensures loadingProgress == progress
    {
      loadingProgress := progress;
    }

    method SetLoadingText(text: Option<string>)
      modifies this`loadingText
      ensures loadingText == text
    {
      loadingText := text;
    }

    method SetSceneZoomed(zoomed: Option<string>)
      modifies this`sceneZoomed
      ensures sceneZoomed == zoomed
    {
      sceneZoomed := zoomed;
    }

    method SetFullscreenActive(isActive: bool)
      modifies this`isFullscreenActive
      ensures isFullscreenActive == isActive
    {
      isFullscreenActive := isActive;
    }

    method SubmitSearch()
      modifies this`isSearchSubmitted
      ensures isSearchSubmitted
    {
      isSearchSubmitted := true;
    }

    method ResetSearch()
      modifies this`isSearchSubmitted
      ensures !isSearchSubmitted
    {
      isSearchSubmitted := false;
    }

    method StartFadeToBlack()
      modifies this`isFadingToBlack
      ensures isFadingToBlack
    {
      isFadingToBlack := true;
    }

    method CompleteFade()
      modifies this`isFadeComplete
      ensures isFadeComplete
    {
      isFadeComplete := true;
    }

    method SetOverlayColor(color: string)
      modifies this`overlayColor
      ensures overlayColor == color
    {
      overlayColor := color;
    }

    /** `zoomOutCameraData[scene]`, None where the object has no such key. */
    function GetZoomOutCameraData(scene: Scene): (r: Option<Camera>)
      reads this
      ensures r.Some? <==> scene in zoomOutCameraData
      ensures r.Some? ==> r.value == zoomOutCameraData[scene]
    {
      if scene in zoomOutCameraData then Some(zoomOutCameraData[scene]) else None
    }

    /** Replaces one scene's camera data: that scene now reads back `data`, every other scene
        reads back what it did before. */
    method SetZoomOutCameraData(scene: Scene, data: Camera)
      requires Valid()
      modifies this`zoomOutCameraData
      ensures Valid()
      ensures zoomOutCameraData == old(zoomOutCameraData)[scene := data]
      ensures GetZoomOutCameraData(scene) == Some(data)
      ensures forall other :: other != scene ==> GetZoomOutCameraData(other) == old(GetZoomOutCameraData(other))
    {
      zoomOutCameraData := zoomOutCameraData[scene := data];
    }

    /** Ends a zoom transition: moves to the next scene (zoom in) or the previous one (zoom
        out), marking the direction and clearing `sceneZoomed`; at either end nothing changes. */
    method EndTransition(isZoomIn: bool)
      requires Valid()
      modifies this`currentScene, this`zoomDirection, this`sceneZoomed
      ensures Valid()
      ensures var i := IndexOf(order, old(currentScene));
        if isZoomIn && i + 1 < |order| then
          currentScene == order[i + 1] && zoomDirection == Some(In) && sceneZoomed.None?
        else if !isZoomIn && i > 0 then
          currentScene == order[i - 1] && zoomDirection == Some(Out) && sceneZoomed.None?
        else
          currentScene == old(currentScene) && zoomDirection == old(zoomDirection) && sceneZoomed == old(sceneZoomed)
    {
      var next := Target(order, currentScene, isZoomIn);
      var i := IndexOf(order, currentScene);
      if isZoomIn {
        TargetIn(order, i);
      } else {
        TargetOut(order, i);
      }
      if next != currentScene {
        currentScene := next;
        zoomDirection := Some(if isZoomIn then In else Out);
        sceneZoomed := None;
      }
    }
  }
}
