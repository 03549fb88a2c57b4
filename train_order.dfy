/** The `constexpr` part of `TrainOrder`: a command that is one of three actions. */
module Train {
  /** `TrainOrder::Action`. */
  datatype Action = Accelerate | MaintainSpeed | Brake

  /** `TrainOrder`: holds only its action (`m_action`). */
  datatype TrainOrder = TrainOrder(action: Action)

  /** `TrainOrder()`: the default order keeps the current speed. */
  function Default(): (o: TrainOrder)
    ensures o == MaintainSpeedOrder()
  {
    TrainOrder(MaintainSpeed)
  }

  /** `TrainOrder::accelerate()`. */
  function AccelerateOrder(): TrainOrder
  {
    TrainOrder(Accelerate)
  }

  /** `TrainOrder::maintain_speed()`. */
  function MaintainSpeedOrder(): TrainOrder
  {
    TrainOrder(MaintainSpeed)
  }

  /** `TrainOrder::brake()`. */
  function BrakeOrder(): TrainOrder
  {
    TrainOrder(Brake)
  }

  /** `operator==`: compares the actions. */
  function Eq(a: TrainOrder, b: TrainOrder): (r: bool)
    ensures r <==> a == b
  {
    a.action == b.action
  }

  /** `operator!=`: written separately in the source, and exactly the negation of `==`. */
  function Neq(a: TrainOrder, b: TrainOrder): (r: bool)
    ensures r <==> !Eq(a, b)
  {
    a.action != b.action
  }

  /** The three factories give three pairwise unequal orders, and every order is one of them. */
  lemma FactoriesDistinct(o: TrainOrder)
    ensures Neq(AccelerateOrder(), MaintainSpeedOrder())
    ensures Neq(AccelerateOrder(), BrakeOrder())
    ensures Neq(MaintainSpeedOrder(), BrakeOrder())
    ensures Eq(o, AccelerateOrder()) || Eq(o, MaintainSpeedOrder()) || Eq(o, BrakeOrder())
  {
  }
}
