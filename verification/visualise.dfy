/**
 * The init-state visualisation cell: for at most two init states of the
 * replayed task, set the state, take five zero-action steps and keep one
 * camera image from the last observation.
 */
module Visualise {
  import opened Images

  /** A simulator observation, by key. */
  type Observation = map<string, Image>

  /** A saved simulator state. */
  type InitState = seq<real>

  const CameraSize: nat := 128
  const Channels: nat := 3
  const MaxStates: nat := 2
  const StepsPerState: nat := 5

  /** Camera keys, in the order they are tried. */
  const PrimaryView: string := "agentview_image"
  const SecondaryView: string := "agentview_rgb"

  /** np.zeros((h, w, c)) */
  function Zeros(h: nat, w: nat, c: nat): (img: Image)
    ensures |img| == h
    ensures forall r :: 0 <= r < h ==> |img[r]| == w
    ensures forall r, x :: 0 <= r < h && 0 <= x < w ==> |img[r][x]| == c
    ensures forall r, x, ch :: 0 <= r < h && 0 <= x < w && 0 <= ch < c ==> img[r][x][ch] == 0
  {
    seq(h, _ => seq(w, _ => seq(c, _ => 0)))
  }

  /** The blank image used when the observation has no camera key. */
  function Blank(): Image {
    Zeros(CameraSize, CameraSize, Channels)
  }

  /**
   * The camera image kept from an observation: agentview_image if present,
   * else agentview_rgb, else a blank 128x128x3 image.
   */
  function AgentView(obs: Observation): (img: Image)
    ensures PrimaryView in obs ==> img == obs[PrimaryView]
    ensures PrimaryView !in obs && SecondaryView in obs ==> img == obs[SecondaryView]
    ensures PrimaryView !in obs && SecondaryView !in obs ==> img == Blank()
    ensures img in obs.Values || img == Blank()
  {
    if PrimaryView in obs then obs[PrimaryView]
    else if SecondaryView in obs then obs[SecondaryView]
    else Blank()
  }

  /**
   * The visualisation loop. `step(s, k)` is the observation returned by the
   * k-th zero-action step after setting init state `s`; the image comes from
   * the last of the five steps.
   */
  method CollectImages(initStates: seq<InitState>, step: (InitState, nat) -> Observation)
    returns (images: seq<Image>, steps: nat)
    ensures |images| == if |initStates| < MaxStates then |initStates| else MaxStates
    ensures steps == StepsPerState * |images|
    ensures forall i :: 0 <= i < |images| ==>
              images[i] == AgentView(step(initStates[i], StepsPerState - 1))
  {
    images, steps := [], 0;
    var count := if |initStates| < MaxStates then |initStates| else MaxStates;
    for e := 0 to count
      invariant |images| == e
      invariant steps == StepsPerState * e
      invariant forall i :: 0 <= i < e ==> images[i] == AgentView(step(initStates[i], StepsPerState - 1))
    {
      var state := initStates[e];
      var obs: Observation := map[];
      for k := 0 to StepsPerState
        invariant steps == StepsPerState * e + k
        invariant k > 0 ==> obs == step(state, k - 1)
      {
        obs := step(state, k);
        steps := steps + 1;
      }
      images := images + [AgentView(obs)];
    }
  }
}
