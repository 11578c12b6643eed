/**
  The discrete part of the Chrysler car-state decoder: the gear lever reading
  and the boolean flags that one update derives from the latest CAN signal
  values. Continuous quantities (wheel speeds, the speed filter, steering
  angles) are not part of this model.
*/
module ChryslerCarState {

  /** Gear lever position as the decoder names it. */
  datatype Gear = Park | Reverse | Neutral | Drive | Unknown

  /** The PRNDL signal value to a gear: 1..4 are park, reverse, neutral, drive; anything else is unknown. */
  function ParseGearShifter(canGear: int): (g: Gear)
    ensures canGear == 1 <==> g == Park
    ensures canGear == 2 <==> g == Reverse
    ensures canGear == 3 <==> g == Neutral
    ensures canGear == 4 <==> g == Drive
    ensures g == Unknown <==> !(1 <= canGear <= 4)
  {
    if canGear == 1 then Park
    else if canGear == 2 then Reverse
    else if canGear == 3 then Neutral
    else if canGear == 4 then Drive
    else Unknown
  }

  /** The latest value of each integer-valued CAN signal that the flags are decoded from. */
  datatype Signals = Signals(
    canValid: bool,
    incrementing220: int,
    wheelButtonCounter: int,
    doorOpenFL: int, doorOpenFR: int, doorOpenRL: int, doorOpenRR: int,
    seatbeltDriverUnlatched: int,
    brakePressed2: int,
    tractionOff: int,
    prndl: int,
    accStatus2: int,
    turnSignals: int,
    lkasIsGreen: int,
    accSpeedConfigKph: int,
    highBeamFlash: int)

  /** Everything one update decodes from a set of signal values. */
  datatype Decoded = Decoded(
    canValid: bool,
    frame220: int,
    frame23b: int,
    doorAllClosed: bool,
    seatbelt: bool,
    brakePressed: bool,
    pedalGas: int,
    carGas: int,
    espDisabled: bool,
    gearShifter: Gear,
    mainOn: bool,
    leftBlinkerOn: bool,
    rightBlinkerOn: bool,
    steerOverride: bool,
    steerError: bool,
    steerTorqueDriver: int,
    userBrake: int,
    brakeLights: bool,
    vCruisePcm: int,
    pcmAccStatus: bool,
    genericToggle: bool)

  /** Relations every decoded state satisfies. */
  predicate Consistent(d: Decoded) {
    !(d.leftBlinkerOn && d.rightBlinkerOn) &&
    d.brakeLights == d.brakePressed &&
    d.pcmAccStatus == d.mainOn &&
    d.carGas == d.pedalGas
  }

  /** The flag decoding of one update, from the current signal values. */
  function Decode(cp: Signals): (d: Decoded)
    ensures d.doorAllClosed <==> cp.doorOpenFL == 0 && cp.doorOpenFR == 0 && cp.doorOpenRL == 0 && cp.doorOpenRR == 0
    ensures d.seatbelt <==> cp.seatbeltDriverUnlatched == 0
    ensures d.brakePressed <==> cp.brakePressed2 == 5
    ensures d.brakeLights == d.brakePressed
    ensures d.mainOn <==> cp.accStatus2 == 7
    ensures d.pcmAccStatus == d.mainOn
    ensures d.leftBlinkerOn <==> cp.turnSignals == 1
    ensures d.rightBlinkerOn <==> cp.turnSignals == 2
    ensures d.gearShifter == ParseGearShifter(cp.prndl)
    ensures d.steerError <==> cp.lkasIsGreen == 0
    ensures d.espDisabled <==> cp.tractionOff == 1
    ensures d.pedalGas == 0 && d.carGas == 0 && d.userBrake == 0 && d.steerTorqueDriver == 0 && !d.steerOverride
    ensures d.genericToggle <==> cp.highBeamFlash != 0
    ensures d.canValid == cp.canValid && d.frame220 == cp.incrementing220 && d.frame23b == cp.wheelButtonCounter
    ensures d.vCruisePcm == cp.accSpeedConfigKph
    ensures Consistent(d)
  {
    var brake := cp.brakePressed2 == 5;
    var accGreen := cp.accStatus2 == 7;
    Decoded(
      canValid := cp.canValid,
      frame220 := cp.incrementing220,
      frame23b := cp.wheelButtonCounter,
      doorAllClosed := !(cp.doorOpenFL != 0 || cp.doorOpenFR != 0 || cp.doorOpenRL != 0 || cp.doorOpenRR != 0),
      seatbelt := cp.seatbeltDriverUnlatched == 0,
      brakePressed := brake,
      pedalGas := 0,
      carGas := 0,
      espDisabled := cp.tractionOff == 1,
      gearShifter := ParseGearShifter(cp.prndl),
      mainOn := accGreen,
      leftBlinkerOn := cp.turnSignals == 1,
      rightBlinkerOn := cp.turnSignals == 2,
      steerOverride := false,
      steerError := cp.lkasIsGreen == 0,
      steerTorqueDriver := 0,
      userBrake := 0,
      brakeLights := brake,
      vCruisePcm := cp.accSpeedConfigKph,
      pcmAccStatus := accGreen,
      genericToggle := cp.highBeamFlash != 0)
  }

  /** The state before any update: both blinkers off and every other flag cleared. */
  const Initial := Decoded(false, 0, 0, false, false, false, 0, 0, false, Unknown, false,
                           false, false, false, false, 0, 0, false, 0, false, false)

  /** The decoder object: the last decoded flags and the blinkers of the update before. */
  class CarState {
    var state: Decoded
    var prevLeftBlinkerOn: bool
    var prevRightBlinkerOn: bool

    predicate Valid()
      reads this
    {
      Consistent(state) && !(prevLeftBlinkerOn && prevRightBlinkerOn)
    }

    /** A fresh decoder: both blinkers off. */
    constructor ()
      ensures state == Initial && !prevLeftBlinkerOn && !prevRightBlinkerOn
      ensures Valid()
    {
      state := Initial;
      prevLeftBlinkerOn, prevRightBlinkerOn := false, false;
    }

    /** One decoding step; the blinkers of the previous step move to the `prev` fields. */
    method Update(cp: Signals)
      requires Valid()
      modifies this
      ensures prevLeftBlinkerOn == old(state.leftBlinkerOn)
      ensures prevRightBlinkerOn == old(state.rightBlinkerOn)
      ensures state == Decode(cp)
      ensures Valid()
    {
      prevLeftBlinkerOn := state.leftBlinkerOn;
      prevRightBlinkerOn := state.rightBlinkerOn;
      state := Decode(cp);
    }
  }
}
