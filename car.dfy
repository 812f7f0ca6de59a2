/** A vehicle. Only its road index changes after construction, so the other
    three fields are constants of the object. */
module Cars {

  class Car {
    const isRuleBreaker: bool
    var currentRoadIndex: nat
    const speed: nat
    const id: nat

    /** `Car::new` stores its four arguments as they are. */
    constructor (isRuleBreaker: bool, currentRoadIndex: nat, speed: nat, id: nat)
      ensures this.isRuleBreaker == isRuleBreaker
      ensures this.currentRoadIndex == currentRoadIndex
      ensures this.speed == speed
      ensures this.id == id
    {
      this.isRuleBreaker := isRuleBreaker;
      this.currentRoadIndex := currentRoadIndex;
      this.speed := speed;
      this.id := id;
    }

    /** A car that has reached or passed the end of a road of `roadLen` segments. */
    predicate HasFinished(roadLen: nat)
      reads this
    {
      currentRoadIndex >= roadLen
    }

    /** Advances the car by its speed; a finished car stays finished. */
    method MoveForward()
      modifies this
      ensures currentRoadIndex == old(currentRoadIndex) + speed
      ensures speed >= 1 ==> currentRoadIndex > old(currentRoadIndex)
      ensures forall roadLen: nat :: old(HasFinished(roadLen)) ==> HasFinished(roadLen)
    {
      currentRoadIndex := currentRoadIndex + speed;
    }
  }
}
