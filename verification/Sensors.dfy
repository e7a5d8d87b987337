/** The host's table of sensor readings: up to four C strings of less than 32 characters, cut out of
    one message at the semicolons. */
module Sensors {
  import opened Fields

  const MAX_SENSORS: nat := 4
  const WIDTH: nat := 32

  /** The fields of a message that get a slot. */
  function Kept(data: string): (fs: seq<string>)
    ensures 1 <= |fs| <= MAX_SENSORS
  {
    var fs := Split(data, ';');
    if |fs| > MAX_SENSORS then fs[..MAX_SENSORS] else fs
  }

  /** Nothing of a message with at most four fields is lost: joining what was kept gives it back. */
  lemma KeptJoinsBack(data: string)
    ensures Join(Kept(data), ';') == data <==> |Split(data, ';')| <= MAX_SENSORS
  {
    JoinOfSplit(data, ';');
    FieldsHaveNoSeparator(data, ';');
    if |Split(data, ';')| > MAX_SENSORS {
      SplitOfJoin(Kept(data), ';');
    }
  }

  /** They are the first four, or all. */
  lemma KeptAre(data: string)
    ensures var fs := Split(data, ';');
      && |Kept(data)| == (if |fs| > 4 then 4 else |fs|)
      && forall k | 0 <= k < |Kept(data)| :: Kept(data)[k] == fs[k]
  {
    hide Split;
  }

  /** Splitting more of a message leaves all fields but the last as they were. */
  lemma {:induction false} SplitGrows(data: string, i: nat)
    requires i <= |data|
    ensures var a, b := Split(data[..i], ';'), Split(data, ';');
      |a| <= |b| && forall k | 0 <= k < |a| - 1 :: a[k] == b[k]
    decreases |data| - i
  {
    if i == |data| {
      assert data[..i] == data;
    } else {
      assert data[..i + 1] == data[..i] + [data[i]];
      SplitSnoc(data[..i], data[i], ';');
      SplitGrows(data, i + 1);
    }
  }

  /** Where the loop is after i characters: sc fields are complete and the next began at lastPos. */
  ghost predicate Scanned(data: string, i: nat, sc: nat, lastPos: nat) {
    && lastPos <= i <= |data|
    && |Split(data[..i], ';')| == sc + 1
    && Split(data[..i], ';')[sc] == data[lastPos..i]
  }

  lemma ScanStart(data: string)
    ensures Scanned(data, 0, 0, 0)
  {
    assert data[..0] == "" && data[0..0] == "";
  }

  lemma ScanStep(data: string, i: nat, sc: nat, lastPos: nat)
    requires i < |data| && Scanned(data, i, sc, lastPos)
    ensures data[i] == ';' ==> Scanned(data, i + 1, sc + 1, i + 1)
    ensures data[i] != ';' ==> Scanned(data, i + 1, sc, lastPos)
  {
    hide Split;
    assert data[..i + 1] == data[..i] + [data[i]];
    SplitSnoc(data[..i], data[i], ';');
    if data[i] == ';' {
      assert data[i + 1..i + 1] == "";
    } else {
      assert data[lastPos..i + 1] == data[lastPos..i] + [data[i]];
    }
  }

  lemma ScanField(data: string, i: nat, sc: nat, lastPos: nat)
    requires i < |data| && data[i] == ';' && Scanned(data, i, sc, lastPos) && sc < MAX_SENSORS
    ensures sc < |Kept(data)| && Kept(data)[sc] == data[lastPos..i]
    ensures sc + 1 == MAX_SENSORS ==> |Kept(data)| == MAX_SENSORS
  {
    hide Split;
    ScanStep(data, i, sc, lastPos);
    SplitGrows(data, i + 1);
    assert data[..i + 1] == data[..i] + [data[i]];
    SplitSnoc(data[..i], data[i], ';');
  }

  lemma ScanEnd(data: string, sc: nat, lastPos: nat)
    requires Scanned(data, |data|, sc, lastPos) && sc < MAX_SENSORS
    ensures |Kept(data)| == sc + 1 && Kept(data)[sc] == data[lastPos..]
  {
    assert data[..|data|] == data;
  }

  class Table {
    const sensors: array2<char>
    var sensorCount: nat

    constructor ()
      ensures Valid() && sensorCount == 0 && fresh(sensors)
    {
      sensors := new char[MAX_SENSORS, WIDTH]((_, _) => '\0');
      sensorCount := 0;
    }

    predicate Valid()
      reads this
    {
      sensors.Length0 == MAX_SENSORS && sensors.Length1 == WIDTH && sensorCount <= MAX_SENSORS
    }

    /** Slot k holds the characters of f and a NUL. */
    ghost predicate Stores(k: nat, f: string)
      requires Valid() && k < MAX_SENSORS
      reads this, sensors
    {
      && |f| < WIDTH
      && (forall i | 0 <= i < |f| :: sensors[k, i] == f[i])
      && sensors[k, |f|] == '\0'
    }

    /** slip_bridge_set_sensors. No write is checked against the width of a slot; `inside` tells whether all
        of them stay within theirs. The first one that does not ends what can be said. */
    method SetSensors(data: string) returns (inside: bool)
      requires Valid()
      modifies this, sensors
      ensures Valid()
      ensures inside <==> forall f | f in Kept(data) :: |f| < 32
      ensures inside ==> sensorCount == |Kept(data)|
      ensures inside ==> forall k | 0 <= k < sensorCount :: Stores(k, Kept(data)[k])
      ensures inside ==> sensorCount == if |Split(data, ';')| > 4 then 4 else |Split(data, ';')|
      ensures inside ==> forall k | 0 <= k < sensorCount :: Stores(k, Split(data, ';')[k])
    {
      KeptAre(data);
      hide Split, Scanned, Kept;
      var lastPos, sc := 0, 0;
      ScanStart(data);
      for i := 0 to |data|
        invariant Valid() && lastPos <= i && 0 <= sc < MAX_SENSORS && sc <= |Kept(data)|
        invariant Scanned(data, i, sc, lastPos)
        invariant forall k | 0 <= k < sc :: Stores(k, Kept(data)[k])
      {
        ScanStep(data, i, sc, lastPos);
        if data[i] == ';' {
          ScanField(data, i, sc, lastPos);
          if i - lastPos >= WIDTH {
            assert data[lastPos..i] in Kept(data);
            return false;
          }
          Store(sc, data[lastPos..i]);
          sc := sc + 1;
          lastPos := i + 1;
        }
        if sc == MAX_SENSORS {
          sensorCount := sc;
          return true;
        }
      }
      ScanEnd(data, sc, lastPos);
      if |data| - lastPos >= WIDTH {
        assert data[lastPos..] in Kept(data);
        return false;
      }
      Store(sc, data[lastPos..]);
      sensorCount := sc + 1;
      inside := true;
    }

    /** The NUL first, then the characters. */
    method Store(k: nat, f: string)
      requires Valid() && k < MAX_SENSORS && |f| < WIDTH
      modifies sensors
      ensures Stores(k, f)
      ensures forall j, i | 0 <= j < MAX_SENSORS && j != k && 0 <= i < WIDTH :: sensors[j, i] == old(sensors[j, i])
    {
      sensors[k, |f|] := '\0';
      forall i | 0 <= i < |f| {
        sensors[k, i] := f[i];
      }
    }
  }
}
