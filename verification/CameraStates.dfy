/**
 The states of src/cameracontroller/cameramanager/CameraManager.cpp as a hierarchy, and what
 becomes of the transition that one of its ENTRY handlers asks for.
 */
module CameraStates {
  import opened Wrappers
  import opened StateTree

  // 1 to 4 lie below Hsm_top; Idle, CaptureWired and Downloading below Connected.
  const DISCONNECTED: StateId := 1
  const CONNECTING: StateId := 2
  const ERROR: StateId := 3
  const CONNECTED: StateId := 4
  const IDLE: StateId := 5
  const CAPTURE_WIRED: StateId := 6
  const DOWNLOADING: StateId := 7
  const CAMERA := RawTree([HSM_TOP, HSM_TOP, HSM_TOP, HSM_TOP, HSM_TOP, CONNECTED, CONNECTED, CONNECTED])

  lemma {:induction false} CameraIsTree()
    ensures CAMERA.Valid()
  {
    forall s: StateId ensures CAMERA.Level(s) < HSM_MAX_NEST_DEPTH {
      assert CAMERA.Level(CAMERA.Parent(s)) <= 1;
    }
  }

  /**
   Idle answers ENTRY with transition(stateError) when the camera is unresponsive, but after
   EV_CAMERA_CAPTURE_SUCCESS the controller rests in Idle all the same.
   */
  lemma {:induction false} UnresponsiveCameraStaysIdle(h: Handlers, success: Signal)
    requires success.User?
    requires h == map[(IDLE, Entry) := Reply(Tran, Some(ERROR)),
                      (CAPTURE_WIRED, success) := Reply(Tran, Some(IDLE)),
                      (CAPTURE_WIRED, Leave) := Reply(Handled, None),
                      (IDLE, Init) := Reply(Handled, None)]
    ensures CAMERA.Valid()
    ensures Obeys(CAMERA, h)
    ensures Dispatch(CAMERA, h, CAPTURE_WIRED, success) == Next(IDLE, [Exit(CAPTURE_WIRED), Enter(IDLE)])
  {
    CameraIsTree();
    var t: Tree := CAMERA;
    assert Answer(t, h, CAPTURE_WIRED, success) == Verdict(Tran, CAPTURE_WIRED, IDLE);
    assert t.Parent(IDLE) == t.Parent(CAPTURE_WIRED) == CONNECTED;
    assert Within(t, CAPTURE_WIRED, CONNECTED) && Within(t, IDLE, CONNECTED);
    assert !Within(t, IDLE, CAPTURE_WIRED) by {
      if Within(t, IDLE, CAPTURE_WIRED) { WithinIsDeeper(t, IDLE, CAPTURE_WIRED); }
    }
    assert Lca(t, CONNECTED, IDLE) == CONNECTED;
    assert Lca(t, CAPTURE_WIRED, IDLE) == Lca(t, t.Parent(CAPTURE_WIRED), IDLE);
    assert ExitSteps(t, CONNECTED, CONNECTED) == [] && EntrySteps(t, CONNECTED, CONNECTED) == [];
    assert ExitSteps(t, CAPTURE_WIRED, CONNECTED) == [Exit(CAPTURE_WIRED)];
    assert EntrySteps(t, CONNECTED, IDLE) == [Enter(IDLE)];
    assert !Drills(t, h, IDLE);
  }

  /**
   A critical error that CaptureWired has no case for is answered by its superstate Connected, with
   a transition to Error: both are exited, innermost first, and Error is entered.
   */
  lemma {:induction false} ErrorIsAnsweredByConnected(h: Handlers, error: Signal)
    requires error.User?
    requires (CAPTURE_WIRED, error) !in h
    requires (CONNECTED, error) in h && h[(CONNECTED, error)] == Reply(Tran, Some(ERROR))
    requires (ERROR, Init) in h && h[(ERROR, Init)].ret == Handled
    ensures CAMERA.Valid()
    ensures Dispatch(CAMERA, h, CAPTURE_WIRED, error) ==
            Next(ERROR, [Exit(CAPTURE_WIRED), Exit(CONNECTED), Enter(ERROR)])
  {
    CameraIsTree();
    var t: Tree := CAMERA;
    assert t.Parent(CAPTURE_WIRED) == CONNECTED && t.Parent(CONNECTED) == HSM_TOP == t.Parent(ERROR);
    assert Within(t, CAPTURE_WIRED, CONNECTED);
    forall x: StateId | Within(t, CAPTURE_WIRED, x) && Within(t, x, CONNECTED) && x != CONNECTED
      ensures x == CAPTURE_WIRED
    {
      WithinIsDeeper(t, x, CONNECTED);
      if x != CAPTURE_WIRED { WithinIsDeeper(t, CONNECTED, x); }
    }
    DispatchOfFirstReply(t, h, CAPTURE_WIRED, CONNECTED, error);
    assert !Within(t, ERROR, CONNECTED);
    assert Lca(t, CONNECTED, ERROR) == HSM_TOP;
    assert ExitSteps(t, CONNECTED, HSM_TOP) == [Exit(CONNECTED)];
    assert ExitSteps(t, CAPTURE_WIRED, HSM_TOP) == [Exit(CAPTURE_WIRED)] + ExitSteps(t, CONNECTED, HSM_TOP);
    assert EntrySteps(t, HSM_TOP, ERROR) == [Enter(ERROR)];
    InitFollowsChain(t, h, [ERROR]);
  }
}
