/** The closed vocabularies of the pipeline: the four gesture labels the
    classifier can produce, the three tracked activities, the table that maps
    gestures to activities and the stop gesture. The constants file of the
    program is not part of this model; the values here are the ones its unit
    tests pin down. */
module Constants {

  datatype Gesture = Fist | Ily | OpenPalm | ThumbsUp

  datatype Activity = Studying | Youtube | Lol

  /** Every activity; the key set of the totals map. */
  const AllActivities: set<Activity> := {Studying, Youtube, Lol}

  lemma EveryActivityListed(a: Activity)
    ensures a in AllActivities
  {
  }

  /** The gesture that returns the tracker to idle. */
  const GestureStop: Gesture := Fist

  /** Which activity each gesture starts. The stop gesture has no entry. */
  const ActivityByGesture: map<Gesture, Activity> :=
    map[Ily := Studying, ThumbsUp := Youtube, OpenPalm := Lol]
}
